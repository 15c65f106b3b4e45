/** `POST /api/categorize`: checks the note, asks the inference service for a
    zero-shot classification against a fixed list of ten categories, and
    answers with a one-element list holding the entry of highest score. */
module Categorize {
  import opened Js
  import opened Ranking
  import opened Http

  const ZeroShotModel := "facebook/bart-large-mnli"
  const UnexpectedReply := "Failed to categorize note: Unexpected API response or no categories found."
  const CategorizeFailed := "Failed to categorize note via Hugging Face API."

  /** The candidate labels sent with every classification request. */
  const CandidateLabels: seq<string> :=
    ["Work", "Personal", "Shopping", "Health", "Finance",
     "Ideas", "Learning", "Travel", "Social", "General"]

  /** The zero-shot reply: something other than an array, or an array. */
  datatype ZeroShotReply = NotArray | Array(entries: seq<Scored>)

  /** `entries.sort((a, b) => b.score - a.score).slice(0, 1)`: the earliest
      entry of highest score, alone; nothing for no entries. */
  function TopCategory(entries: seq<Scored>): (r: seq<Scored>)
    ensures entries == [] ==> r == []
    ensures entries != [] ==>
      && |r| == 1
      && r[0] in entries
      && (forall j :: 0 <= j < |entries| ==> entries[j].score <= r[0].score)
      && r[0] == entries[EarliestMaxIndex(entries)]
  {
    var sorted := SortByScoreDesc(entries);
    if entries == [] then []
    else
      HeadIsEarliestMax(entries, EarliestMaxIndex(entries));
      sorted[..1]
  }

  /** The handler. A falsy note is refused before the remote call; a call
      that throws gives the generic 500 answer; a reply that is not an array,
      or an empty one, gives the 500 answer that says so; any other reply is
      answered with its top entry. */
  function Post(note: JsValue, reply: Remote<ZeroShotReply>): (x: Exchange)
    ensures !Truthy(note) <==> x.response == BadRequest()
    ensures !Truthy(note) ==> x.calls == []
    ensures Truthy(note) ==> x.calls == [ZeroShotClassification(ZeroShotModel, note, CandidateLabels)]
    ensures x.response == Response(500, ErrorBody(CategorizeFailed)) <==> Truthy(note) && reply.Threw?
    ensures x.response == Response(500, ErrorBody(UnexpectedReply)) <==>
      Truthy(note) && (reply == Returned(NotArray) || reply == Returned(Array([])))
    ensures x.response.status == 200 <==> Truthy(note) && reply.Returned? && reply.value.Array? && reply.value.entries != []
    ensures x.response.status == 200 ==>
      && x.response.body.CategoriesBody?
      && |x.response.body.categories| == 1
      && x.response.body.categories == TopCategory(reply.value.entries)
  {
    if !Truthy(note) then Exchange([], BadRequest())
    else
      var calls := [ZeroShotClassification(ZeroShotModel, note, CandidateLabels)];
      match reply
      case Threw => Exchange(calls, Response(500, ErrorBody(CategorizeFailed)))
      case Returned(NotArray) => Exchange(calls, Response(500, ErrorBody(UnexpectedReply)))
      case Returned(Array(entries)) =>
        if entries == [] then Exchange(calls, Response(500, ErrorBody(UnexpectedReply)))
        else Exchange(calls, Response(200, CategoriesBody(TopCategory(entries))))
  }

  /** The candidate list has ten labels, no two alike. */
  lemma CandidateLabelsDistinct()
    ensures |CandidateLabels| == 10
    ensures forall i, j :: 0 <= i < j < |CandidateLabels| ==> CandidateLabels[i] != CandidateLabels[j]
  {
  }
}
