/**
 How the search tab presents a single-match reply: the result card is shown
 as a found match only when the backend said "Yes" AND the similarity score
 reaches the client's own threshold of 0.6; every other reply shows the
 "No exact match found" notice.
 */
module Search {
  import opened Types
  import opened Text

  const ConfidenceThreshold: real := 0.6

  /** `Matched === 'Yes' && Similarity_Score >= 0.6`. A missing score compares
      as false in JavaScript (`undefined >= 0.6` and `null >= 0.6` are both false). */
  predicate IsConfidentMatch(r: SearchResponse) {
    r.matched == "Yes" && r.similarityScore.Some? && r.similarityScore.value >= ConfidenceThreshold
  }

  /** What the search card shows. */
  datatype Panel =
    | Hidden                          // no reply yet: no card
    | MatchFound(description: string) // "MATCH FOUND" with the part description
    | NoMatchFound                    // the "No exact match found" notice

  const NoDescription := "No description available"

  /** `Part_description || 'No description available'`: an absent or empty
      description falls back to the placeholder. */
  function PartText(r: SearchResponse): (t: string)
    ensures t == NoDescription <==> r.partDescription.None? || r.partDescription.value in {"", NoDescription}
    ensures t != NoDescription ==> r.partDescription == Some(t)
  {
    match r.partDescription
    case Some(d) => if d == "" then NoDescription else d
    case None => NoDescription
  }

  const NoSearchedText := "No description"

  /** `Invoice_Description || 'No description'`, the "SEARCHED FOR" line of
      the card: an absent or empty description falls back to the placeholder. */
  function SearchedForText(r: SearchResponse): (t: string)
    ensures t == NoSearchedText <==> r.invoiceDescription.None? || r.invoiceDescription.value in {"", NoSearchedText}
    ensures t != NoSearchedText ==> r.invoiceDescription == Some(t)
  {
    match r.invoiceDescription
    case Some(d) => if d == "" then NoSearchedText else d
    case None => NoSearchedText
  }

  /** The search card for the stored reply (absent before any reply). */
  function PanelFor(result: Option<SearchResponse>): Panel {
    match result
    case None => Hidden
    case Some(r) => if IsConfidentMatch(r) then MatchFound(PartText(r)) else NoMatchFound
  }

  /** A reply is presented as a found match exactly when it says "Yes" with a
      score of at least 0.6; every other reply is presented as "no match",
      whatever the backend's own verdict. */
  lemma FoundIffConfident(r: SearchResponse)
    ensures PanelFor(Some(r)).MatchFound? <==> r.matched == "Yes" && r.similarityScore.Some? && r.similarityScore.value >= 0.6
    ensures PanelFor(Some(r)).NoMatchFound? <==> !(r.matched == "Yes" && r.similarityScore.Some? && r.similarityScore.value >= 0.6)
    ensures PanelFor(Some(r)) != Hidden
  {
  }

  /** The threshold is monotone: raising the score of a confident match keeps
      it confident, lowering the score of a rejected one keeps it rejected. */
  lemma ThresholdMonotone(r: SearchResponse, s: real)
    ensures IsConfidentMatch(r) && s >= r.similarityScore.value ==> IsConfidentMatch(r.(similarityScore := Some(s)))
    ensures r.similarityScore.Some? && !IsConfidentMatch(r) && s <= r.similarityScore.value ==> !IsConfidentMatch(r.(similarityScore := Some(s)))
  {
  }

  /** A "Yes" with score 0.55 shows "no match"; a "Yes" with score 0.82 and
      description "Widget A" shows a found match with that description. */
  lemma ThresholdExamples(r: SearchResponse)
    ensures PanelFor(Some(r.(matched := "Yes", similarityScore := Some(0.55)))) == NoMatchFound
    ensures PanelFor(Some(r.(matched := "Yes", similarityScore := Some(0.82), partDescription := Some("Widget A")))) == MatchFound("Widget A")
    ensures PanelFor(Some(r.(matched := "No", similarityScore := Some(0.99)))) == NoMatchFound
  {
  }

  /** `!(loading || !searchQuery.trim())`: the search button is enabled only
      while nothing is loading and the query is not blank. */
  predicate SearchButtonEnabled(loading: bool, query: string) {
    !(loading || IsBlank(query))
  }

  /** The button is enabled exactly when nothing is loading and the query has
      a character that is not whitespace; a blank query never enables it. */
  lemma SearchButtonEnabledIff(loading: bool, query: string)
    ensures SearchButtonEnabled(loading, query) <==> !loading && exists i :: 0 <= i < |query| && !IsJsWhitespace(query[i])
  {
    BlankIffAllWhitespace(query);
  }
}
