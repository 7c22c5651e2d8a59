/**
 The documents table's per-row busy indicator: while a flow is in flight, the
 "Match Parts" button of the row whose id is the selected document shows a
 spinner instead of its label.
 */
module Documents {
  import opened Types

  /** `loading && selectedDocument === doc._id` (an absent selection equals no id). */
  predicate RowBusy(loading: bool, selected: Option<DocId>, rowId: DocId) {
    loading && selected == Some(rowId)
  }

  /** The indices of the rows that show the spinner. */
  function BusyRows(docs: seq<Document>, loading: bool, selected: Option<DocId>): set<nat> {
    set i: nat | i < |docs| && RowBusy(loading, selected, docs[i].id)
  }

  /** Backend ids are unique within one listing. */
  ghost predicate DistinctIds(docs: seq<Document>) {
    forall i, j :: 0 <= i < j < |docs| ==> docs[i].id != docs[j].id
  }

  /** The busy indicator: no row is busy when nothing is loading; while loading,
      a row is busy exactly when its id is the selected one, so with distinct
      ids at most one row shows the spinner, and it is the selected document's. */
  lemma {:induction false} BusyRowIsTheSelectedOne(docs: seq<Document>, loading: bool, selected: Option<DocId>)
    requires DistinctIds(docs)
    ensures !loading ==> BusyRows(docs, loading, selected) == {}
    ensures forall i :: 0 <= i < |docs| ==> (i in BusyRows(docs, loading, selected) <==> loading && selected == Some(docs[i].id))
    ensures |BusyRows(docs, loading, selected)| <= 1
  {
    var b := BusyRows(docs, loading, selected);
    if b != {} {
      var i :| i in b;
      forall j | j in b ensures j == i {
        assert docs[j].id == docs[i].id;
      }
      assert b == {i};
    }
  }
}
