/**
 The state controller of the part-matching page. Each field is one piece of
 the component's state; each handler is a method that changes exactly the
 fields its `modifies` clause names. A handler that waits for the backend is
 one step: it starts the request, receives the settled reply as a parameter,
 and applies it. The requests issued are recorded in the ghost field `sent`.
 */
module Controller {
  import opened Types
  import opened Text
  import Results

  const FetchErrorText := "Error fetching documents"
  const UploadDoneText := "File uploaded successfully!"
  const UploadErrorText := "Error uploading file"
  const MatchDoneText := "Matching completed!"
  const MatchErrorText := "Error performing batch match"
  const BlankQueryText := "Please enter a description to search"
  const SearchErrorText := "Error searching for part"

  const DocumentsTab := 0
  const ResultsTab := 1
  const SearchTab := 2

  /** The top-level tabs: Documents and Search are always enabled, Batch Match
      Results only once there are results; no other index names a tab. */
  predicate TabEnabled(tab: int, results: Option<BatchMatchResponse>) {
    tab == DocumentsTab || tab == SearchTab || (tab == ResultsTab && results.Some?)
  }

  class App {
    var tabValue: int
    var batchMatchTab: int
    var documents: seq<Document>
    var selectedDocument: Option<DocId>
    var matchingResults: Option<BatchMatchResponse>
    var loading: bool
    var searchQuery: string
    var searchResult: Option<SearchResponse>
    var snackbar: Snackbar
    /** The value of the upload control (`event.target`); its first file is the upload. */
    var fileInput: Option<PdfFile>
    /** The backend requests issued so far, oldest first. */
    ghost var sent: seq<Request>

    /** The active tab is always an enabled one, and so is the active result
        sub-tab whenever there is at least one result. */
    ghost predicate Valid()
      reads this
    {
      && TabEnabled(tabValue, matchingResults)
      && (batchMatchTab == Results.MatchedTab || batchMatchTab == Results.UnmatchedTab)
      && (matchingResults.Some? && matchingResults.value.matches != [] ==>
            Results.SubTabEnabled(matchingResults.value.matches, batchMatchTab))
    }

    /** The initial values of the component's state. */
    constructor ()
      ensures Valid()
      ensures tabValue == DocumentsTab && batchMatchTab == Results.MatchedTab
      ensures documents == [] && selectedDocument == None && matchingResults == None
      ensures !loading && searchQuery == "" && searchResult == None
      ensures snackbar == Snackbar(false, "", Info)
      ensures fileInput == None && sent == []
    {
      tabValue, batchMatchTab := DocumentsTab, Results.MatchedTab;
      documents, selectedDocument, matchingResults := [], None, None;
      loading, searchQuery, searchResult := false, "", None;
      snackbar := Snackbar(false, "", Info);
      fileInput := None;
      sent := [];
    }

    /** Replaces the notification with an open one; the severity defaults to info. */
    method ShowSnackbar(message: string, severity: Severity := Info)
      modifies this`snackbar
      ensures old(Valid()) ==> Valid()
      ensures snackbar == Snackbar(true, message, severity)
    {
      snackbar := Snackbar(true, message, severity);
    }

    /** Hides the notification and keeps its message and severity; a second
        close leaves the notification as the first one did. */
    method HandleCloseSnackbar()
      modifies this`snackbar
      ensures old(Valid()) ==> Valid()
      ensures snackbar == old(snackbar).(open := false)
      ensures !snackbar.open && snackbar.message == old(snackbar.message) && snackbar.severity == old(snackbar.severity)
    {
      snackbar := snackbar.(open := false);
    }

    /** Reads the document list. A reply replaces the list verbatim (an empty
        list included); a failure keeps the old list and shows the error. */
    method FetchDocuments(reply: Reply<seq<Document>>)
      requires Valid()
      modifies this`documents, this`snackbar, this`sent
      ensures Valid()
      ensures sent == old(sent) + [GetDocuments]
      ensures reply.Ok? ==> documents == reply.data && snackbar == old(snackbar)
      ensures reply.Failed? ==> documents == old(documents) && snackbar == Snackbar(true, FetchErrorText, Error)
    {
      sent := sent + [GetDocuments];
      match reply {
        case Ok(docs) =>
          documents := docs;
        case Failed =>
          ShowSnackbar(FetchErrorText, Error);
      }
    }

    /** The browser's update of the upload control when the user picks a file,
        which then fires the control's change handler. */
    method ChooseFile(f: PdfFile)
      modifies this`fileInput
      ensures old(Valid()) ==> Valid()
      ensures fileInput == Some(f)
    {
      fileInput := Some(f);
    }

    /** Uploads the chosen file. With no file it does nothing at all. Otherwise
        it always ends with `loading` false and the control cleared; a
        successful upload shows success and refreshes the document list once
        (whose own failure then replaces the notification), a failed one shows
        the error and keeps the list. */
    method HandleFileUpload(upload: Reply<()>, refresh: Reply<seq<Document>>)
      requires Valid()
      modifies this`loading, this`fileInput, this`documents, this`snackbar, this`sent
      ensures Valid()
      ensures old(fileInput).None? ==>
        loading == old(loading) && fileInput == None && documents == old(documents)
        && snackbar == old(snackbar) && sent == old(sent)
      ensures old(fileInput).Some? ==> !loading && fileInput == None
      ensures old(fileInput).Some? && upload.Ok? ==>
        sent == old(sent) + [PostUpload(old(fileInput).value), GetDocuments]
        && (refresh.Ok? ==> documents == refresh.data && snackbar == Snackbar(true, UploadDoneText, Success))
        && (refresh.Failed? ==> documents == old(documents) && snackbar == Snackbar(true, FetchErrorText, Error))
      ensures old(fileInput).Some? && upload.Failed? ==>
        sent == old(sent) + [PostUpload(old(fileInput).value)]
        && documents == old(documents) && snackbar == Snackbar(true, UploadErrorText, Error)
    {
      if fileInput.None? {
        return;
      }
      var file := fileInput.value;
      loading := true;
      sent := sent + [PostUpload(file)];
      match upload {
        case Ok(_) =>
          ShowSnackbar(UploadDoneText, Success);
        case Failed =>
          ShowSnackbar(UploadErrorText, Error);
      }
      // finally
      loading := false;
      fileInput := None;
      // the refresh started after a successful upload settles afterwards
      if upload.Ok? {
        FetchDocuments(refresh);
      }
    }

    /** Picks the sub-tab for newly arrived results: Matched when some result
        is matched, Unmatched otherwise. It runs whenever `matchingResults`
        changes and does nothing while there are none. */
    method ResultsChanged()
      requires TabEnabled(tabValue, matchingResults)
      requires batchMatchTab == Results.MatchedTab || batchMatchTab == Results.UnmatchedTab
      requires matchingResults.None? ==> Valid()
      modifies this`batchMatchTab
      ensures Valid()
      ensures matchingResults.Some? ==> batchMatchTab == Results.DefaultSubTab(matchingResults.value.matches)
      ensures matchingResults.None? ==> batchMatchTab == old(batchMatchTab)
    {
      if matchingResults.Some? {
        batchMatchTab := Results.DefaultSubTab(matchingResults.value.matches);
        Results.DefaultSubTabIsEnabled(matchingResults.value.matches);
      }
    }

    /** Matches the parts of document `docId`. The document becomes the
        selected one whatever the outcome, and `loading` ends false. A reply is
        stored as the results, opens the results tab, selects an enabled
        sub-tab and shows success; a failure keeps the results, the tab and the
        sub-tab and shows the error. */
    method HandleBatchMatch(docId: DocId, reply: Reply<BatchMatchResponse>)
      requires Valid()
      modifies this`loading, this`selectedDocument, this`matchingResults, this`tabValue,
               this`batchMatchTab, this`snackbar, this`sent
      ensures Valid()
      ensures sent == old(sent) + [PostBatchMatch(docId)]
      ensures !loading && selectedDocument == Some(docId)
      ensures reply.Ok? ==>
        && matchingResults == Some(reply.data)
        && tabValue == ResultsTab
        && batchMatchTab == (if Results.AnyWith(reply.data.matches, true) then Results.MatchedTab else Results.UnmatchedTab)
        && snackbar == Snackbar(true, MatchDoneText, Success)
      ensures reply.Failed? ==>
        && matchingResults == old(matchingResults)
        && tabValue == old(tabValue)
        && batchMatchTab == old(batchMatchTab)
        && snackbar == Snackbar(true, MatchErrorText, Error)
    {
      loading := true;
      selectedDocument := Some(docId);
      sent := sent + [PostBatchMatch(docId)];
      match reply {
        case Ok(response) =>
          matchingResults := Some(response);
          tabValue := ResultsTab;
          ShowSnackbar(MatchDoneText, Success);
        case Failed =>
          ShowSnackbar(MatchErrorText, Error);
      }
      // finally
      loading := false;
      if reply.Ok? {
        ResultsChanged();
      }
    }

    /** Searches for the current query. A blank query issues no request,
        leaves the result and `loading` as they were and shows a warning.
        Otherwise the untrimmed query is sent and `loading` ends false; a reply
        replaces the result, a failure keeps it and shows the error. */
    method HandleSearch(reply: Reply<SearchResponse>)
      requires Valid()
      modifies this`loading, this`searchResult, this`snackbar, this`sent
      ensures Valid()
      ensures IsBlank(searchQuery) ==>
        && sent == old(sent) && searchResult == old(searchResult) && loading == old(loading)
        && snackbar == Snackbar(true, BlankQueryText, Warning)
      ensures !IsBlank(searchQuery) ==>
        && sent == old(sent) + [PostSingleMatch(searchQuery)]
        && !loading
        && (reply.Ok? ==> searchResult == Some(reply.data) && snackbar == old(snackbar))
        && (reply.Failed? ==> searchResult == old(searchResult) && snackbar == Snackbar(true, SearchErrorText, Error))
    {
      if IsBlank(searchQuery) {
        ShowSnackbar(BlankQueryText, Warning);
        return;
      }
      loading := true;
      sent := sent + [PostSingleMatch(searchQuery)];
      match reply {
        case Ok(response) =>
          searchResult := Some(response);
        case Failed =>
          ShowSnackbar(SearchErrorText, Error);
      }
      // finally
      loading := false;
    }

    /** The search field's change handler. */
    method SetSearchQuery(q: string)
      modifies this`searchQuery
      ensures old(Valid()) ==> Valid()
      ensures searchQuery == q
    {
      searchQuery := q;
    }

    /** The tab strip's change handler; a disabled tab never reports a change. */
    method SelectTab(tab: int)
      requires Valid() && TabEnabled(tab, matchingResults)
      modifies this`tabValue
      ensures Valid() && tabValue == tab
    {
      tabValue := tab;
    }

    /** The result sub-tab strip's change handler; it is shown only with
        results, and a disabled sub-tab never reports a change. */
    method SelectSubTab(tab: int)
      requires Valid() && matchingResults.Some? && Results.SubTabEnabled(matchingResults.value.matches, tab)
      modifies this`batchMatchTab
      ensures Valid() && batchMatchTab == tab
    {
      batchMatchTab := tab;
    }
  }

  /** An upload run against fixed replies: a successful upload refreshes the
      list once and clears the control, a failed one keeps the list, and with
      no file chosen nothing happens. */
  method UploadWalkthrough(pdf: PdfFile)
  {
    var app := new App();
    app.FetchDocuments(Ok([]));
    assert app.documents == [];

    var doc := Document("d1", "po.pdf", "2024-01-01", "processed");
    app.ChooseFile(pdf);
    app.HandleFileUpload(Ok(()), Ok([doc]));
    assert app.documents == [doc] && app.fileInput == None && !app.loading;
    assert app.sent == [GetDocuments, PostUpload(pdf), GetDocuments];
    assert app.snackbar == Snackbar(true, UploadDoneText, Success);

    app.ChooseFile(pdf);
    app.HandleFileUpload(Failed, Ok([]));
    assert app.documents == [doc] && app.fileInput == None;
    assert app.snackbar == Snackbar(true, UploadErrorText, Error);

    ghost var before := app.sent;
    app.HandleFileUpload(Ok(()), Ok([]));
    assert app.documents == [doc] && app.sent == before;
  }

  /** A run of the page against fixed replies: a mixed batch opens on the
      Matched sub-tab, an all-unmatched batch on the Unmatched one, a
      whitespace-only search sends nothing, and closing the notice twice
      leaves it as closing it once. */
  method Walkthrough(docId: DocId, item: LineItem, found: MatchCandidate, r: SearchResponse)
  {
    var app := new App();
    app.FetchDocuments(Ok([Document(docId, "po.pdf", "2024-01-01", "processed")]));
    assert app.documents[0].id == docId;

    var yes := MatchResult(item, true, 0.9, Some(found));
    var no := MatchResult(item, false, 0.1, None);
    var mixed := BatchMatchResponse(docId, 2, 1, 0.5, [yes, no]);
    app.HandleBatchMatch(docId, Ok(mixed));
    assert mixed.matches[0].matched;
    assert app.tabValue == ResultsTab && app.batchMatchTab == Results.MatchedTab;
    assert !app.loading && app.selectedDocument == Some(docId);

    var missed := BatchMatchResponse(docId, 1, 0, 0.0, [no]);
    app.HandleBatchMatch(docId, Ok(missed));
    assert app.batchMatchTab == Results.UnmatchedTab;

    app.HandleBatchMatch(docId, Failed);
    assert app.matchingResults == Some(missed) && app.batchMatchTab == Results.UnmatchedTab;

    app.SetSearchQuery(" \t");
    assert IsBlank(app.searchQuery);
    ghost var before := app.sent;
    app.HandleSearch(Ok(r));
    assert app.sent == before && app.searchResult == None;
    assert app.snackbar.severity == Warning;

    app.HandleCloseSnackbar();
    var once := app.snackbar;
    app.HandleCloseSnackbar();
    assert app.snackbar == once;
  }
}
