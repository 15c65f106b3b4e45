/** `POST /api/analyze`: checks the note, asks the inference service for a
    sentiment classification and a summary of it, and answers with the
    sentiment label of highest score and up to five keywords taken from the
    summary. */
module Analyze {
  import opened Js
  import opened Ranking
  import opened Http
  import Tokens

  const ClassificationModel := "distilbert-base-uncased-finetuned-sst-2-english"
  const SummarizationModel := "facebook/bart-large-cnn"
  const AnalyzeFailed := "Failed to analyze note via Hugging Face API."

  /** The sentiment used when the classification gives no entries. */
  const Neutral := "Neutral"
  /** The keywords used when there is no summary text. */
  const Placeholder := "No keywords found"
  /** At most this many keywords are returned. */
  const MaxKeywords := 5

  /** The text classification reply: absent (a falsy value), a list of
      scored labels, or some other truthy value without a `sort` method,
      together with whether `length > 0` holds of it. */
  datatype Classification = Missing | Items(entries: seq<Scored>) | NoSort(lengthPositive: bool)

  /** The summarization reply as far as the handler looks at it: no reply or
      no `summary_text` field, or the text of that field. */
  datatype Summary = NoSummary | SummaryText(text: string)

  /** The label of the first entry after sorting by descending score, or
      `Neutral` when the reply is falsy or has no positive length. A reply
      with a positive length but no `sort` method throws a `TypeError`. */
  function Sentiment(c: Classification): (r: Remote<string>)
    ensures r.Threw? <==> c.NoSort? && c.lengthPositive
    ensures (c.Missing? || (c.Items? && c.entries == []) || (c.NoSort? && !c.lengthPositive)) ==>
      r == Returned(Neutral)
    ensures c.Items? && c.entries != [] ==> r == Returned(c.entries[EarliestMaxIndex(c.entries)].name)
  {
    match c
    case Missing => Returned(Neutral)
    case NoSort(lengthPositive) => if lengthPositive then Threw else Returned(Neutral)
    case Items(entries) =>
      if |entries| > 0 then
        HeadIsEarliestMax(entries, EarliestMaxIndex(entries));
        Returned(SortByScoreDesc(entries)[0].name)
      else Returned(Neutral)
  }

  /** `word.length > 3`, with JavaScript's UTF-16 length. */
  predicate IsLong(word: string) {
    Utf16Length(word) > 3
  }

  /** `words.filter(word => word.length > 3)`. */
  function LongWords(words: seq<string>): (r: seq<string>)
    ensures |r| <= |words|
    ensures forall k :: 0 <= k < |r| ==> IsLong(r[k]) && r[k] in words
  {
    if words == [] then []
    else (if IsLong(words[0]) then [words[0]] else []) + LongWords(words[1..])
  }

  /** How many of `words` are long: the rank that the next long word gets. */
  function CountLong(words: seq<string>): (n: nat)
    ensures n <= |words|
  {
    if words == [] then 0
    else (if IsLong(words[0]) then 1 else 0) + CountLong(words[1..])
  }

  /** `words.filter(word => word.length > 3).slice(0, 5)`. */
  function FirstLongWords(words: seq<string>): (r: seq<string>)
    ensures |r| <= MaxKeywords
    ensures forall k :: 0 <= k < |r| ==> IsLong(r[k]) && r[k] in words
  {
    var long := LongWords(words);
    if |long| <= MaxKeywords then long else long[..MaxKeywords]
  }

  /** The keyword list of the response: the placeholder when the summary text
      is missing or empty, and otherwise
      `text.split(/[.,;\s]+/).filter(word => word.length > 3).slice(0, 5)`. */
  function Keywords(s: Summary): (r: seq<string>)
    ensures (s.NoSummary? || s.text == "") ==> r == [Placeholder]
    ensures s.SummaryText? && s.text != "" ==>
      && |r| <= MaxKeywords
      && forall k :: 0 <= k < |r| ==> IsLong(r[k]) && Tokens.NoDelimiter(r[k]) && r[k] in Tokens.Split(s.text)
  {
    if s.NoSummary? || s.text == "" then [Placeholder]
    else
      Tokens.SplitIsMaximal(s.text);
      FirstLongWords(Tokens.Split(s.text))
  }

  /** The handler. A falsy note is refused before any remote call; a remote
      call that throws, or a classification reply that cannot be sorted,
      ends the handler with the generic 500 answer and no partial result;
      otherwise both calls are made, in order, and the answer holds exactly
      a sentiment and a keyword list. */
  function Post(note: JsValue, classification: Remote<Classification>, summary: Remote<Summary>): (x: Exchange)
    ensures !Truthy(note) <==> x.response == BadRequest()
    ensures !Truthy(note) ==> x.calls == []
    ensures Truthy(note) ==>
      x.calls == [TextClassification(ClassificationModel, note)]
                 + (if classification.Threw? || Sentiment(classification.value).Threw? then []
                    else [Summarization(SummarizationModel, note)])
    ensures x.response.status == 500 <==>
      Truthy(note) && (classification.Threw? || Sentiment(classification.value).Threw? || summary.Threw?)
    ensures x.response.status == 500 ==> x.response.body == ErrorBody(AnalyzeFailed)
    ensures x.response.status == 200 <==>
      Truthy(note) && classification.Returned? && Sentiment(classification.value).Returned? && summary.Returned?
    ensures x.response.status == 200 ==>
      x.response.body == AnalysisBody(Sentiment(classification.value).value, Keywords(summary.value))
  {
    if !Truthy(note) then Exchange([], BadRequest())
    else
      var classify := TextClassification(ClassificationModel, note);
      match classification
      case Threw => Exchange([classify], Response(500, ErrorBody(AnalyzeFailed)))
      case Returned(c) =>
        match Sentiment(c)
        case Threw => Exchange([classify], Response(500, ErrorBody(AnalyzeFailed)))
        case Returned(sentiment) =>
          var calls := [classify, Summarization(SummarizationModel, note)];
          match summary
          case Threw => Exchange(calls, Response(500, ErrorBody(AnalyzeFailed)))
          case Returned(s) => Exchange(calls, Response(200, AnalysisBody(sentiment, Keywords(s))))
  }

  lemma PlaceholderIsNoWord()
    ensures !Tokens.NoDelimiter(Placeholder)
  {
    assert Tokens.IsDelimiter(Placeholder[2]);
  }

  /** The placeholder is returned exactly when the summary text is missing or
      empty: it holds a space, so `split` never yields it as a word. */
  lemma KeywordsPlaceholderExactly(s: Summary)
    ensures Keywords(s) == [Placeholder] <==> (s.NoSummary? || s.text == "")
  {
    if s.SummaryText? && s.text != "" {
      var r := Keywords(s);
      if |r| == 1 {
        assert Tokens.NoDelimiter(r[0]);
        PlaceholderIsNoWord();
        assert r[0] != Placeholder;
      }
    }
  }

  /** `LongWords` drops exactly the short words and keeps the order. */
  lemma {:induction false} LongWordsAt(words: seq<string>, j: int)
    requires 0 <= j < |words| && IsLong(words[j])
    ensures CountLong(words[..j]) < |LongWords(words)|
    ensures LongWords(words)[CountLong(words[..j])] == words[j]
  {
    if j > 0 {
      LongWordsAt(words[1..], j - 1);
      assert words[..j][1..] == words[1..][..j - 1];
    }
  }

  lemma {:induction false} LongWordsCount(words: seq<string>)
    ensures |LongWords(words)| == CountLong(words)
  {
    if words != [] {
      LongWordsCount(words[1..]);
    }
  }

  /** The keywords are the first five long words, in order: there are as
      many as there are long words, up to five, and the long word whose rank
      among the long words is `i < 5` is keyword `i`. */
  lemma FirstLongWordsRanks(words: seq<string>, j: int)
    requires 0 <= j < |words|
    ensures |FirstLongWords(words)| == if CountLong(words) < MaxKeywords then CountLong(words) else MaxKeywords
    ensures IsLong(words[j]) ==> CountLong(words[..j]) < CountLong(words)
    ensures IsLong(words[j]) && CountLong(words[..j]) < MaxKeywords ==>
      FirstLongWords(words)[CountLong(words[..j])] == words[j]
  {
    LongWordsCount(words);
    if IsLong(words[j]) {
      LongWordsAt(words, j);
    }
  }

  /** The keyword list of a non-empty summary is the first five long words
      of its split, in order: as many as there are long words, up to five,
      and the long word of rank `i < 5` is keyword `i`. */
  lemma KeywordsAreFirstLongWords(text: string, j: int)
    requires text != "" && 0 <= j < |Tokens.Split(text)|
    ensures var words := Tokens.Split(text);
      |Keywords(SummaryText(text))| == if CountLong(words) < MaxKeywords then CountLong(words) else MaxKeywords
    ensures var words := Tokens.Split(text);
      IsLong(words[j]) && CountLong(words[..j]) < MaxKeywords ==>
        && CountLong(words[..j]) < |Keywords(SummaryText(text))|
        && Keywords(SummaryText(text))[CountLong(words[..j])] == words[j]
  {
    var words := Tokens.Split(text);
    assert Keywords(SummaryText(text)) == FirstLongWords(words);
    FirstLongWordsRanks(words, j);
  }

  /** A summary without any word longer than three gives no keywords at all,
      not the placeholder. */
  lemma NoLongWordNoKeywords(text: string)
    requires text != ""
    requires forall k :: 0 <= k < |Tokens.Split(text)| ==> !IsLong(Tokens.Split(text)[k])
    ensures Keywords(SummaryText(text)) == []
  {
  }

  /** Every keyword is a substring of the summary text with a delimiter or
      the edge of the text on either side: a whole word of the summary. */
  lemma KeywordIsWordOfSummary(text: string, k: int)
    requires text != ""
    requires 0 <= k < |Keywords(SummaryText(text))|
    ensures exists p: nat :: Tokens.DelimitedAt(text, Keywords(SummaryText(text))[k], p)
  {
    var word := Keywords(SummaryText(text))[k];
    var words := Tokens.Split(text);
    var i :| 0 <= i < |words| && words[i] == word;
    Tokens.PieceIsDelimited(text, i);
  }
}
