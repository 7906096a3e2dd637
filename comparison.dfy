/**
  `compare_evaluations` (finch-in-person/main.py): the overall ranking of several
  evaluations by weighted score and, for seven rubric categories in a fixed order,
  a listing of the evaluations by that category's score. The Markdown text is
  modelled by its lines as records; the orderings are `StableSort.SortDescending`.
 */
module Comparison {
  import opened Wrappers
  import opened OrderedDict
  import opened Scorer
  import opened StableSort

  /** An evaluation result: the letter's name, its weighted score (absent from the
      error record) and its category scores (likewise absent, modelled as empty). */
  datatype Evaluation = Evaluation(letterName: string, weightedScore: Option<int>, categoryScores: Dict<CategoryScore>)

  /** The record `evaluate_demand_letter` returns when parsing fails: only the name
      (and the error text, which the comparison never reads). */
  function ErrorRecord(letterName: string): (e: Evaluation)
    ensures e.letterName == letterName && e.weightedScore.None? && e.categoryScores == []
  {
    Evaluation(letterName, None, [])
  }

  const NeedTwoMessage: string := "Need at least two evaluations to compare."
  const NoExplanation: string := "No explanation provided"

  /** The categories compared, in the order they are listed. */
  const ComparedCategories: seq<string> := [
    "Structure and Organization", "Factual Presentation", "Medical Documentation",
    "Damages Calculation", "Legal Strategy", "Persuasiveness", "Source Document Representation"
  ]

  /** The overall sort key: the weighted score, 0 when missing. */
  function WeightedKey(e: Evaluation): (k: int)
    ensures e.weightedScore.None? ==> k == 0
    ensures e.weightedScore.Some? ==> k == e.weightedScore.value
  {
    e.weightedScore.GetOr(0)
  }

  /** An evaluation's entry for a category; a missing one has neither score nor explanation. */
  function CategoryOf(e: Evaluation, category: string): (c: CategoryScore)
    ensures Lookup(e.categoryScores, category).None? ==> c.score.None? && c.explanation.None?
    ensures Lookup(e.categoryScores, category).Some? ==> c == Lookup(e.categoryScores, category).value
  {
    match Lookup(e.categoryScores, category)
    case None => CategoryScore(None, None)
    case Some(c) => c
  }

  /** The per-category sort key: that category's score, 0 when missing. */
  function CategoryKey(category: string): (key: Evaluation -> int)
    ensures forall e: Evaluation :: Lookup(e.categoryScores, category).None? ==> key(e) == 0
    ensures forall e: Evaluation :: Lookup(e.categoryScores, category).Some? ==>
      key(e) == Lookup(e.categoryScores, category).value.score.GetOr(0)
  {
    e => CategoryOf(e, category).score.GetOr(0)
  }

  /** A line of the overall ranking: its 1-based rank, the name and the weighted score. */
  datatype RankLine = RankLine(rank: nat, letterName: string, score: Option<int>)

  /** A line of a category listing: the name, the category score and its explanation. */
  datatype ListingLine = ListingLine(letterName: string, score: Option<int>, explanation: string)

  datatype Section = Section(category: string, listing: seq<ListingLine>)

  /** The comparison: the fixed message when there are too few evaluations, otherwise
      the ranking and one section per compared category. */
  datatype Summary = TooFew(message: string) | Report(ranking: seq<RankLine>, sections: seq<Section>)

  /** The evaluations in ranking order. */
  function Ranked(evaluations: seq<Evaluation>): (r: seq<Evaluation>)
    ensures multiset(r) == multiset(evaluations)
    ensures forall i, j :: 0 <= i < j < |r| ==> WeightedKey(r[i]) >= WeightedKey(r[j])
  {
    SortPermutes(evaluations, WeightedKey);
    SortSorted(evaluations, WeightedKey);
    SortDescending(evaluations, WeightedKey)
  }

  /** The evaluations in a category's listing order. */
  function Listed(evaluations: seq<Evaluation>, category: string): (r: seq<Evaluation>)
    ensures multiset(r) == multiset(evaluations)
    ensures forall i, j :: 0 <= i < j < |r| ==> CategoryKey(category)(r[i]) >= CategoryKey(category)(r[j])
  {
    SortPermutes(evaluations, CategoryKey(category));
    SortSorted(evaluations, CategoryKey(category));
    SortDescending(evaluations, CategoryKey(category))
  }

  /** The `i`-th ranking line (0-based `i`, so rank `i + 1`); a missing score stays
      missing and is shown as N/A. */
  function RankLineOf(i: nat, e: Evaluation): (l: RankLine)
    ensures l.rank == i + 1 && l.rank >= 1
    ensures l.letterName == e.letterName && l.score == e.weightedScore
  {
    RankLine(i + 1, e.letterName, e.weightedScore)
  }

  function ListingLineOf(e: Evaluation, category: string): (l: ListingLine)
    ensures l.letterName == e.letterName
    ensures Lookup(e.categoryScores, category).None? ==> l.score.None? && l.explanation == NoExplanation
    ensures Lookup(e.categoryScores, category).Some? ==>
      l.score == Lookup(e.categoryScores, category).value.score &&
      l.explanation == Lookup(e.categoryScores, category).value.explanation.GetOr(NoExplanation)
  {
    var c := CategoryOf(e, category);
    ListingLine(e.letterName, c.score, c.explanation.GetOr(NoExplanation))
  }

  // ---------------------------------------------------------------- the comparison

  /** One category's section: the evaluations by that category's score, one line each. */
  method ListCategory(evaluations: seq<Evaluation>, category: string) returns (section: Section)
    ensures section.category == category
    ensures |section.listing| == |evaluations|
    ensures forall i :: 0 <= i < |evaluations| ==>
      section.listing[i] == ListingLineOf(Listed(evaluations, category)[i], category)
    ensures forall i, j :: 0 <= i < j < |section.listing| ==>
      section.listing[i].score.GetOr(0) >= section.listing[j].score.GetOr(0)
  {
    var categorySorted := Listed(evaluations, category);
    var listing: seq<ListingLine> := [];
    for i := 0 to |categorySorted|
      invariant |listing| == i
      invariant forall j :: 0 <= j < i ==> listing[j] == ListingLineOf(categorySorted[j], category)
    {
      listing := listing + [ListingLineOf(categorySorted[i], category)];
    }
    section := Section(category, listing);
    assert forall i :: 0 <= i < |listing| ==> listing[i].score.GetOr(0) == CategoryKey(category)(categorySorted[i]);
  }

  /** The "Overall Ranking" loop: one line per evaluation, numbered from 1, in the order
      of the weighted scores. */
  method RankAll(evaluations: seq<Evaluation>) returns (ranking: seq<RankLine>)
    ensures |ranking| == |evaluations|
    ensures forall i :: 0 <= i < |evaluations| ==> ranking[i] == RankLineOf(i, Ranked(evaluations)[i])
    ensures forall i, j :: 0 <= i < j < |ranking| ==> ranking[i].score.GetOr(0) >= ranking[j].score.GetOr(0)
  {
    var sortedEvals := Ranked(evaluations);
    ranking := [];
    for i := 0 to |sortedEvals|
      invariant |ranking| == i
      invariant forall j :: 0 <= j < i ==> ranking[j] == RankLineOf(j, sortedEvals[j])
    {
      ranking := ranking + [RankLineOf(i, sortedEvals[i])];
    }
    assert forall i :: 0 <= i < |ranking| ==> ranking[i].score.GetOr(0) == WeightedKey(sortedEvals[i]);
  }

  /** The "Category Comparison" loop: one section per compared category, in their fixed order. */
  method ListAll(evaluations: seq<Evaluation>) returns (sections: seq<Section>)
    ensures |sections| == |ComparedCategories|
    ensures forall c :: 0 <= c < |ComparedCategories| ==>
      sections[c].category == ComparedCategories[c] &&
      |sections[c].listing| == |evaluations| &&
      forall i :: 0 <= i < |evaluations| ==>
        sections[c].listing[i] == ListingLineOf(Listed(evaluations, ComparedCategories[c])[i], ComparedCategories[c])
    ensures forall c :: 0 <= c < |sections| ==>
      forall i, j :: 0 <= i < j < |sections[c].listing| ==>
        sections[c].listing[i].score.GetOr(0) >= sections[c].listing[j].score.GetOr(0)
  {
    sections := [];
    for c := 0 to |ComparedCategories|
      invariant |sections| == c
      invariant forall d :: 0 <= d < c ==>
        sections[d].category == ComparedCategories[d] &&
        |sections[d].listing| == |evaluations| &&
        (forall i :: 0 <= i < |evaluations| ==>
          sections[d].listing[i] == ListingLineOf(Listed(evaluations, ComparedCategories[d])[i], ComparedCategories[d])) &&
        (forall i, j :: 0 <= i < j < |sections[d].listing| ==>
          sections[d].listing[i].score.GetOr(0) >= sections[d].listing[j].score.GetOr(0))
    {
      var section := ListCategory(evaluations, ComparedCategories[c]);
      sections := sections + [section];
    }
  }

  /** `compare_evaluations`: fewer than two evaluations give the fixed message; otherwise
      the ranking lists every evaluation once, ranked 1..n by non-increasing weighted
      score (missing as 0, ties in input order), followed by the seven category sections
      in their fixed order, each listing every evaluation by non-increasing score. */
  method CompareEvaluations(evaluations: seq<Evaluation>) returns (summary: Summary)
    ensures summary.TooFew? <==> |evaluations| < 2
    ensures summary.TooFew? ==> summary.message == NeedTwoMessage
    ensures summary.Report? ==>
      |summary.ranking| == |evaluations| &&
      forall i :: 0 <= i < |evaluations| ==> summary.ranking[i] == RankLineOf(i, Ranked(evaluations)[i])
    ensures summary.Report? ==>
      forall i, j :: 0 <= i < j < |summary.ranking| ==>
        summary.ranking[i].score.GetOr(0) >= summary.ranking[j].score.GetOr(0)
    ensures summary.Report? ==>
      |summary.sections| == |ComparedCategories| &&
      forall c :: 0 <= c < |ComparedCategories| ==>
        summary.sections[c].category == ComparedCategories[c] &&
        |summary.sections[c].listing| == |evaluations| &&
        (forall i :: 0 <= i < |evaluations| ==>
          summary.sections[c].listing[i] == ListingLineOf(Listed(evaluations, ComparedCategories[c])[i], ComparedCategories[c]))
    ensures summary.Report? ==>
      forall c :: 0 <= c < |summary.sections| ==>
        forall i, j :: 0 <= i < j < |summary.sections[c].listing| ==>
          summary.sections[c].listing[i].score.GetOr(0) >= summary.sections[c].listing[j].score.GetOr(0)
  {
    if |evaluations| < 2 {
      return TooFew(NeedTwoMessage);
    }
    var ranking := RankAll(evaluations);
    var sections := ListAll(evaluations);
    summary := Report(ranking, sections);
  }

  // ---------------------------------------------------------------- the orderings

  /** The ranking holds every evaluation exactly as often as the input does. */
  lemma RankedIsPermutation(evaluations: seq<Evaluation>)
    ensures multiset(Ranked(evaluations)) == multiset(evaluations)
  {
    SortPermutes(evaluations, WeightedKey);
  }

  /** Evaluations with equal weighted scores (missing counting as 0) keep their input order. */
  lemma RankedIsStable(evaluations: seq<Evaluation>, k: int)
    ensures WithKey(Ranked(evaluations), WeightedKey, k) == WithKey(evaluations, WeightedKey, k)
  {
    SortStable(evaluations, WeightedKey, k);
  }

  /** Each category listing holds every evaluation exactly as often as the input does and
      keeps the input order among equal category scores. */
  lemma ListedIsStablePermutation(evaluations: seq<Evaluation>, category: string, k: int)
    ensures multiset(Listed(evaluations, category)) == multiset(evaluations)
    ensures WithKey(Listed(evaluations, category), CategoryKey(category), k) == WithKey(evaluations, CategoryKey(category), k)
  {
    SortPermutes(evaluations, CategoryKey(category));
    SortStable(evaluations, CategoryKey(category), k);
  }

  // ---------------------------------------------------------------- the ranking as written

  const FormatError: string := "Unknown format code 'f' for object of type 'str'"

  /** The ranking loop as written: each score goes through a two-decimal number format,
      and the `'N/A'` that stands in for a missing score is a string, which that format
      rejects, so the first evaluation without a weighted score aborts the comparison. */
  function RankingAsWrittenFrom(ranked: seq<Evaluation>, i: nat): (r: Result<seq<RankLine>, string>)
    requires i <= |ranked|
    ensures r.Failure? <==> exists j :: i <= j < |ranked| && ranked[j].weightedScore.None?
    ensures r.Success? ==>
      |r.value| == |ranked| - i && forall j :: i <= j < |ranked| ==> r.value[j - i] == RankLineOf(j, ranked[j])
    decreases |ranked| - i
  {
    if i == |ranked| then Success([])
    else if ranked[i].weightedScore.None? then Failure(FormatError)
    else
      match RankingAsWrittenFrom(ranked, i + 1)
      case Failure(e) => Failure(e)
      case Success(rest) => Success([RankLineOf(i, ranked[i])] + rest)
  }

  function RankingAsWritten(ranked: seq<Evaluation>): (r: Result<seq<RankLine>, string>)
    ensures r.Failure? <==> exists j :: 0 <= j < |ranked| && ranked[j].weightedScore.None?
    ensures r.Success? ==> |r.value| == |ranked| && forall j :: 0 <= j < |ranked| ==> r.value[j] == RankLineOf(j, ranked[j])
  {
    RankingAsWrittenFrom(ranked, 0)
  }

  /** As written, any error record among the evaluations makes the comparison fail,
      while `CompareEvaluations`, which keeps the missing score and shows N/A, reports. */
  lemma ErrorRecordAbortsRanking(evaluations: seq<Evaluation>, i: nat)
    requires i < |evaluations| && evaluations[i].weightedScore.None?
    ensures RankingAsWritten(Ranked(evaluations)).Failure?
  {
    RankedIsPermutation(evaluations);
    assert evaluations[i] in multiset(Ranked(evaluations));
    var ranked := Ranked(evaluations);
    var j :| 0 <= j < |ranked| && ranked[j] == evaluations[i];
  }

  /** Two letters, the second of whose evaluation failed to parse. */
  lemma TwoLettersOneFailed(good: Evaluation, failed: Evaluation)
    requires good.weightedScore == Some(350) && failed == ErrorRecord("b.pdf")
    ensures Ranked([good, failed]) == [good, failed]
    ensures RankingAsWritten(Ranked([good, failed])).Failure?
  {
    var s := [good, failed];
    assert s[..1] == [good];
    assert [good][..0] == [];
    assert SortDescending([good], WeightedKey) == [good];
    assert WeightedKey(good) == 350 && WeightedKey(failed) == 0;
    assert Insert([good], WeightedKey, failed) == [good] + Insert([], WeightedKey, failed);
    ErrorRecordAbortsRanking(s, 1);
  }
}
