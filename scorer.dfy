/**
  The weighted rubric scorer, `calculate_weighted_score` of finch-in-person/utils.py.
  Weights are kept in integer hundredths (0.25 is 25), so a score is exactly 100 times
  the exact decimal value of the Python expression, which Python computes in floats.
 */
module Scorer {
  import opened Wrappers
  import opened Text
  import opened OrderedDict
  import opened Sums

  /** One rubric category as an evaluation records it: `{"score": ..., "explanation": ...}`,
      either field possibly missing. */
  datatype CategoryScore = CategoryScore(score: Option<int>, explanation: Option<string>)

  /** The weight of each canonical category, in hundredths. */
  const Weights: Dict<nat> := [
    ("Structure and Organization", 10),
    ("Factual Presentation", 10),
    ("Medical Documentation", 15),
    ("Damages Calculation", 25),
    ("Precedent and Legal Authority", 10),
    ("Legal Strategy", 5),
    ("Persuasiveness", 10),
    ("Settlement Justification", 10),
    ("Source Document Representation", 5)
  ]

  /** Cleaned label to canonical category, in declaration order. */
  const CategoryMap: Dict<string> := [
    ("structure and organization", "Structure and Organization"),
    ("factual presentation", "Factual Presentation"),
    ("medical documentation", "Medical Documentation"),
    ("damages calculation", "Damages Calculation"),
    ("precedent and legal authority", "Precedent and Legal Authority"),
    ("legal strategy", "Legal Strategy"),
    ("persuasiveness", "Persuasiveness"),
    ("settlement justification", "Settlement Justification"),
    ("source document representation", "Source Document Representation")
  ]

  /** `weights.get(category)`. */
  function WeightOf(category: string): (w: Option<nat>)
    ensures w.None? <==> !HasKey(Weights, category)
    ensures w.Some? ==> exists i :: 0 <= i < |Weights| && Weights[i] == (category, w.value)
  {
    Lookup(Weights, category)
  }

  // ---------------------------------------------------------------- the tables

  lemma TablesInStep(i: int)
    requires 0 <= i < 9
    ensures |Weights| == |CategoryMap| == 9
    ensures CategoryMap[i].1 == Weights[i].0
    ensures Weights[i].1 > 0
  {
    assert i == 0 || i == 1 || i == 2 || i == 3 || i == 4 || i == 5 || i == 6 || i == 7 || i == 8;
  }

  lemma WeightsKeysDistinct()
    ensures KeysDistinct(Weights)
  {
  }

  lemma CategoryMapKeysDistinct()
    ensures KeysDistinct(CategoryMap)
  {
  }

  /** Every value of the category map is a key of the weights table, with a positive weight. */
  lemma {:induction false} MapValuesWeighted(i: int)
    requires 0 <= i < |CategoryMap|
    ensures WeightOf(CategoryMap[i].1) == Some(Weights[i].1)
    ensures Weights[i].1 > 0
  {
    TablesInStep(i);
    WeightsKeysDistinct();
    LookupAt(Weights, i);
  }

  /** Every weight of the table is positive. */
  lemma {:induction false} WeightsPositive(category: string)
    ensures WeightOf(category).Some? ==> WeightOf(category).value > 0
  {
    if WeightOf(category).Some? {
      var i :| 0 <= i < |Weights| && Weights[i] == (category, WeightOf(category).value);
      TablesInStep(i);
    }
  }

  /** The sum of all weights of a table. */
  function TableTotal(t: Dict<nat>): nat {
    if t == [] then 0 else t[0].1 + TableTotal(t[1..])
  }

  /** The nine weights add up to 1 (100 hundredths). */
  lemma WeightsSumToOne()
    ensures TableTotal(Weights) == 100
  {
    var t := Weights;
    assert TableTotal(t[8..]) == 5;
    assert TableTotal(t[7..]) == 15;
    assert TableTotal(t[6..]) == 25;
    assert TableTotal(t[5..]) == 30;
    assert TableTotal(t[4..]) == 40;
    assert TableTotal(t[3..]) == 65;
    assert TableTotal(t[2..]) == 80;
    assert TableTotal(t[1..]) == 90;
  }

  // ---------------------------------------------------------------- labels

  /** `category_raw.replace("###", "").strip().lower()`: no marker left, no white
      space at either end, no upper-case letter. */
  function CleanLabel(raw: string): (r: string)
    ensures HasNoMarks(r)
    ensures r != [] ==> !IsSpace(r[0]) && !IsSpace(r[|r| - 1])
    ensures forall i :: 0 <= i < |r| ==> !IsUpper(r[i])
  {
    var unmarked := RemoveMarks(raw);
    RemoveMarksComplete(raw);
    var trimmed := Strip(unmarked);
    StripByNoMarks(unmarked, IsSpace);
    LowerNoMarks(trimmed);
    LowerKeepsStripped(trimmed);
    Lower(trimmed)
  }

  /** Cleaning a cleaned label changes nothing. */
  lemma CleanLabelIdempotent(raw: string)
    ensures CleanLabel(CleanLabel(raw)) == CleanLabel(raw)
  {
    var c := CleanLabel(raw);
    RemoveMarksKeeps(c);
    StripByKeeps(c, IsSpace);
    LowerKeeps(c);
  }

  // ---------------------------------------------------------------- resolution

  /** The first declared key at or after `from` that is a substring of `clean`. */
  function FirstContainedKey(clean: string, from: nat): (r: Option<nat>)
    requires from <= |CategoryMap|
    ensures r.Some? ==> from <= r.value < |CategoryMap| && IsSubstring(CategoryMap[r.value].0, clean)
    ensures r.Some? ==> forall j :: from <= j < r.value ==> !IsSubstring(CategoryMap[j].0, clean)
    ensures r.None? ==> forall j :: from <= j < |CategoryMap| ==> !IsSubstring(CategoryMap[j].0, clean)
    decreases |CategoryMap| - from
  {
    if from == |CategoryMap| then None
    else if IsSubstring(CategoryMap[from].0, clean) then Some(from)
    else FirstContainedKey(clean, from + 1)
  }

  /** The canonical category a cleaned label stands for: `category_map[clean]` when it
      is a key, otherwise the value of the first contained key. */
  function Resolve(clean: string): (r: Option<string>)
    ensures r.Some? ==>
      exists i :: 0 <= i < |CategoryMap| && CategoryMap[i].1 == r.value &&
        (CategoryMap[i].0 == clean || IsSubstring(CategoryMap[i].0, clean))
    ensures r.None? ==>
      !HasKey(CategoryMap, clean) && forall j :: 0 <= j < |CategoryMap| ==> !IsSubstring(CategoryMap[j].0, clean)
  {
    match Lookup(CategoryMap, clean)
    case Some(c) => Some(c)
    case None =>
      match FirstContainedKey(clean, 0)
      case None => None
      case Some(i) => Some(CategoryMap[i].1)
  }

  /** An exact key of the category map takes priority. */
  lemma ResolveExact(clean: string, i: nat)
    requires i < |CategoryMap| && CategoryMap[i].0 == clean
    ensures Resolve(clean) == Some(CategoryMap[i].1)
  {
    CategoryMapKeysDistinct();
    LookupAt(CategoryMap, i);
  }

  /** Without an exact key, the earliest declared key contained in the label wins. */
  lemma ResolveContained(clean: string, i: nat)
    requires !HasKey(CategoryMap, clean)
    requires i < |CategoryMap| && IsSubstring(CategoryMap[i].0, clean)
    requires forall j :: 0 <= j < i ==> !IsSubstring(CategoryMap[j].0, clean)
    ensures Resolve(clean) == Some(CategoryMap[i].1)
  {
    var k := FirstContainedKey(clean, 0);
    assert k.Some?;
    assert !(k.value < i) && !(i < k.value);
  }

  /** Neither an exact nor a contained key: the label is ignored. */
  lemma ResolveNone(clean: string)
    requires !HasKey(CategoryMap, clean)
    requires forall j :: 0 <= j < |CategoryMap| ==> !IsSubstring(CategoryMap[j].0, clean)
    ensures Resolve(clean).None?
  {
  }

  /** What a label resolves to always carries a positive weight (`category in weights`). */
  lemma ResolveWeighted(clean: string)
    ensures Resolve(clean).Some? ==> WeightOf(Resolve(clean).value).Some? && WeightOf(Resolve(clean).value).value > 0
  {
    match Lookup(CategoryMap, clean)
    case Some(c) =>
      var i :| 0 <= i < |CategoryMap| && CategoryMap[i] == (clean, c);
      MapValuesWeighted(i);
    case None =>
      match FirstContainedKey(clean, 0)
      case None =>
      case Some(i) => MapValuesWeighted(i);
  }

  /** The inner search of the scorer: an exact lookup, then a `for ... break` over the
      category map looking for a contained key. */
  method ResolveCategory(clean: string) returns (category: Option<string>)
    ensures category == Resolve(clean)
  {
    if HasKey(CategoryMap, clean) {
      return Some(CategoryMap[KeyIndex(CategoryMap, clean)].1);
    }
    category := None;
    var i := 0;
    while i < |CategoryMap|
      invariant 0 <= i <= |CategoryMap|
      invariant forall j :: 0 <= j < i ==> !IsSubstring(CategoryMap[j].0, clean)
    {
      if IsSubstring(CategoryMap[i].0, clean) {
        ResolveContained(clean, i);
        return Some(CategoryMap[i].1);
      }
      i := i + 1;
    }
    ResolveNone(clean);
  }

  // ---------------------------------------------------------------- accumulation

  /** The canonical category an entry of the evaluation is counted under, if it has a
      score and its label resolves to a weighted category. */
  function CountedCategory(entry: (string, CategoryScore)): (r: Option<string>)
    ensures r.Some? ==> WeightOf(r.value).Some? && entry.1.score.Some?
  {
    match Resolve(CleanLabel(entry.0))
    case None => None
    case Some(c) => if WeightOf(c).Some? && entry.1.score.Some? then Some(c) else None
  }

  /** `score * weight` for one entry, or nothing. */
  function Contribution(entry: (string, CategoryScore)): (r: int)
    ensures entry.1.score.None? || CountedCategory(entry).None? ==> r == 0
  {
    match CountedCategory(entry)
    case None => 0
    case Some(c) => entry.1.score.value * WeightOf(c).value
  }

  /** The weight an entry brings to `total_weight`. */
  function ContributedWeight(entry: (string, CategoryScore)): (r: int)
    ensures r >= 0
    ensures r == 0 <==> CountedCategory(entry).None?
  {
    match CountedCategory(entry)
    case None => 0
    case Some(c) => WeightsPositive(c); WeightOf(c).value
  }

  /** The sum of `score * weight` over the entries, in order. */
  function WeightedSum(scores: Dict<CategoryScore>): int {
    SumOf(scores, Contribution)
  }

  /** The sum of the weights of the counted entries (`total_weight`). */
  function MatchedWeight(scores: Dict<CategoryScore>): int {
    SumOf(scores, ContributedWeight)
  }

  /** What one entry adds to the two running totals, given what its label resolves to. */
  lemma EntryTotals(entry: (string, CategoryScore), category: Option<string>)
    requires category == Resolve(CleanLabel(entry.0))
    ensures var counted := category.Some? && WeightOf(category.value).Some? && entry.1.score.Some?;
            Contribution(entry) == (if counted then entry.1.score.value * WeightOf(category.value).value else 0)
            && ContributedWeight(entry) == (if counted then WeightOf(category.value).value else 0)
  {
  }

  /** An entry brings weight exactly when it is counted, and then brings a positive one. */
  lemma EntryWeight(entry: (string, CategoryScore))
    ensures ContributedWeight(entry) == 0 <==> CountedCategory(entry).None?
    ensures ContributedWeight(entry) == 0 ==> Contribution(entry) == 0
  {
    if CountedCategory(entry).Some? {
      WeightsPositive(CountedCategory(entry).value);
    }
  }

  /** Weights are positive, so a matched weight of 0 means that no entry was counted,
      and then the weighted sum is 0 too. */
  lemma NoMatchedWeightNoSum(scores: Dict<CategoryScore>)
    ensures MatchedWeight(scores) >= 0
    ensures MatchedWeight(scores) == 0 <==> forall i :: 0 <= i < |scores| ==> CountedCategory(scores[i]).None?
    ensures MatchedWeight(scores) == 0 ==> WeightedSum(scores) == 0
  {
    forall e: (string, CategoryScore) {
      EntryWeight(e);
    }
    SumOfZero(scores, ContributedWeight);
    if MatchedWeight(scores) == 0 {
      SumOfMonotone(scores, Contribution, x => 0);
      SumOfMonotone(scores, x => 0, Contribution);
      SumOfZero(scores, x => 0);
    }
  }

  // ---------------------------------------------------------------- properties of the sum

  /** Entries are summed one by one: the sum over two lists of entries is the sum of the
      two sums, so nothing is deduplicated or normalised across entries. */
  lemma WeightedSumAppend(a: Dict<CategoryScore>, b: Dict<CategoryScore>)
    ensures WeightedSum(a + b) == WeightedSum(a) + WeightedSum(b)
    ensures MatchedWeight(a + b) == MatchedWeight(a) + MatchedWeight(b)
  {
    SumOfAppend(a, b, Contribution);
    SumOfAppend(a, b, ContributedWeight);
  }

  /** Two raw labels that resolve to the same canonical category are both counted. */
  lemma SameCategoryBothCount(label1: string, label2: string, s1: int, s2: int, category: string, w: nat)
    requires Resolve(CleanLabel(label1)) == Some(category) && Resolve(CleanLabel(label2)) == Some(category)
    requires WeightOf(category) == Some(w)
    ensures WeightedSum([(label1, CategoryScore(Some(s1), None)), (label2, CategoryScore(Some(s2), None))]) == (s1 + s2) * w
  {
    var e1 := (label1, CategoryScore(Some(s1), None));
    var e2 := (label2, CategoryScore(Some(s2), None));
    assert CountedCategory(e1) == Some(category) && CountedCategory(e2) == Some(category);
    assert Contribution(e1) == s1 * w && Contribution(e2) == s2 * w;
    assert [e1, e2][..1] == [e1] && [e1][..0] == [];
    assert SumOf([e1], Contribution) == s1 * w;
  }

  /** The counted entries name pairwise different canonical categories. */
  predicate DistinctCategories(scores: Dict<CategoryScore>) {
    forall i, j :: 0 <= i < j < |scores| && CountedCategory(scores[i]).Some? ==>
      CountedCategory(scores[i]) != CountedCategory(scores[j])
  }

  /** The total weight of the table rows whose category is in `cats`. */
  function TableWeight(t: Dict<nat>, cats: set<string>): nat {
    if t == [] then 0 else (if t[0].0 in cats then t[0].1 else 0) + TableWeight(t[1..], cats)
  }

  lemma {:induction false} TableWeightAtMost(t: Dict<nat>, cats: set<string>)
    ensures TableWeight(t, cats) <= TableTotal(t)
  {
    if t != [] {
      TableWeightAtMost(t[1..], cats);
    }
  }

  lemma {:induction false} TableWeightAbsent(t: Dict<nat>, cats: set<string>, c: string)
    requires !HasKey(t, c)
    ensures TableWeight(t, cats) == TableWeight(t, cats - {c})
  {
    if t != [] {
      TableWeightAbsent(t[1..], cats, c);
      assert t[0].0 != c;
    }
  }

  lemma {:induction false} TableWeightRemove(t: Dict<nat>, cats: set<string>, c: string, w: nat)
    requires KeysDistinct(t) && c in cats && Lookup(t, c) == Some(w)
    ensures TableWeight(t, cats) == TableWeight(t, cats - {c}) + w
  {
    var k := KeyIndex(t, c);
    if k == 0 {
      TableWeightAbsent(t[1..], cats, c);
    } else {
      assert t[1..][k - 1].0 == c;
      assert HasKey(t[1..], c);
      LookupAt(t[1..], k - 1);
      LookupAt(t, k);
      TableWeightRemove(t[1..], cats, c, w);
    }
  }

  /** Distinct counted categories bring at most the weight of the categories they name. */
  lemma {:induction false} MatchedWeightDistinct(scores: Dict<CategoryScore>, cats: set<string>)
    requires DistinctCategories(scores)
    requires forall i :: 0 <= i < |scores| && CountedCategory(scores[i]).Some? ==> CountedCategory(scores[i]).value in cats
    ensures MatchedWeight(scores) <= TableWeight(Weights, cats)
  {
    if scores != [] {
      var init := scores[..|scores| - 1];
      var last := scores[|scores| - 1];
      assert forall i :: 0 <= i < |init| ==> init[i] == scores[i];
      match CountedCategory(last)
      case None =>
        MatchedWeightDistinct(init, cats);
      case Some(c) =>
        MatchedWeightDistinct(init, cats - {c});
        WeightsKeysDistinct();
        TableWeightRemove(Weights, cats, c, WeightOf(c).value);
    }
  }

  lemma ScaledWeight(s: int, w: int)
    requires 1 <= s <= 5 && w >= 0
    ensures w <= s * w <= 5 * w
  {
    assert s * w == w + (s - 1) * w;
    assert 5 * w == s * w + (5 - s) * w;
  }

  /** An entry scored 1..5 adds between its weight and five times its weight. */
  lemma EntryBounds(entry: (string, CategoryScore))
    requires entry.1.score.Some? ==> 1 <= entry.1.score.value <= 5
    ensures 0 <= ContributedWeight(entry) <= Contribution(entry) <= FiveTimesWeight(entry)
  {
    match CountedCategory(entry)
    case None =>
    case Some(c) =>
      var w := WeightOf(c).value;
      var s := entry.1.score.value;
      assert Contribution(entry) == s * w && ContributedWeight(entry) == w;
      ScaledWeight(s, w);
  }

  function FiveTimesWeight(entry: (string, CategoryScore)): int {
    5 * ContributedWeight(entry)
  }

  /** With scores in 1..5, the weighted sum lies between the matched weight and five times it. */
  lemma WeightedSumWithinWeight(scores: Dict<CategoryScore>)
    requires forall i :: 0 <= i < |scores| && scores[i].1.score.Some? ==> 1 <= scores[i].1.score.value <= 5
    ensures 0 <= MatchedWeight(scores) <= WeightedSum(scores) <= 5 * MatchedWeight(scores)
  {
    forall i | 0 <= i < |scores|
      ensures 0 <= ContributedWeight(scores[i]) <= Contribution(scores[i]) <= FiveTimesWeight(scores[i])
    {
      EntryBounds(scores[i]);
    }
    SumOfMonotone(scores, ContributedWeight, Contribution);
    SumOfMonotone(scores, Contribution, FiveTimesWeight);
    SumOfScale(scores, ContributedWeight, FiveTimesWeight, 5);
    SumOfZero(scores, ContributedWeight);
  }

  /** With scores in 1..5 and each counted entry naming its own canonical category, the
      weighted score lies between 0 and 5 (0 and 500 hundredths), because the weights
      add up to 1. */
  lemma ScoreBetweenZeroAndFive(scores: Dict<CategoryScore>)
    requires forall i :: 0 <= i < |scores| && scores[i].1.score.Some? ==> 1 <= scores[i].1.score.value <= 5
    requires DistinctCategories(scores)
    ensures 0 <= WeightedSum(scores) <= 500
  {
    WeightedSumWithinWeight(scores);
    var cats := set i | 0 <= i < |scores| && CountedCategory(scores[i]).Some? :: CountedCategory(scores[i]).value;
    MatchedWeightDistinct(scores, cats);
    TableWeightAtMost(Weights, cats);
    WeightsSumToOne();
  }

  /** The body of the scorer's loop for one `(category_raw, score_data)` item: clean the
      label, resolve it, and yield what it adds to `total_score` and `total_weight`. */
  method ScoreEntry(entry: (string, CategoryScore)) returns (add: int, addWeight: int)
    ensures add == Contribution(entry) && addWeight == ContributedWeight(entry)
    ensures addWeight >= 0 && (addWeight == 0 <==> CountedCategory(entry).None?)
  {
    var clean := CleanLabel(entry.0);
    var category := ResolveCategory(clean);
    EntryTotals(entry, category);
    EntryWeight(entry);
    add, addWeight := 0, 0;
    if category.Some? && WeightOf(category.value).Some? && entry.1.score.Some? {
      var weight := WeightOf(category.value).value;
      add, addWeight := entry.1.score.value * weight, weight;
    }
  }

  /** The loop of `calculate_weighted_score` over `scores.items()`: the running
      `total_score` and `total_weight` after every entry. */
  method Accumulate(scores: Dict<CategoryScore>) returns (totalScore: int, totalWeight: int)
    ensures totalScore == WeightedSum(scores) && totalWeight == MatchedWeight(scores)
  {
    totalScore, totalWeight := 0, 0;
    var i := 0;
    while i < |scores|
      invariant 0 <= i <= |scores|
      invariant totalScore == WeightedSum(scores[..i])
      invariant totalWeight == MatchedWeight(scores[..i])
    {
      assert scores[..i + 1] == scores[..i] + [scores[i]];
      SumOfSnoc(scores[..i], scores[i], Contribution);
      SumOfSnoc(scores[..i], scores[i], ContributedWeight);
      var add, addWeight := ScoreEntry(scores[i]);
      totalScore := totalScore + add;
      totalWeight := totalWeight + addWeight;
      i := i + 1;
    }
    assert scores[..i] == scores;
  }

  /** `calculate_weighted_score`: accumulate `score * weight` and `weight` over the
      entries; return the weighted sum if any weight was matched and 0 otherwise.
      The sum is not divided by the matched weight. */
  method CalculateWeightedScore(scores: Dict<CategoryScore>) returns (total: int)
    ensures total == WeightedSum(scores)
    ensures (forall i :: 0 <= i < |scores| ==> CountedCategory(scores[i]).None?) ==> total == 0
  {
    var totalScore, totalWeight := Accumulate(scores);
    NoMatchedWeightNoSum(scores);
    if totalWeight > 0 {
      total := totalScore;
    } else {
      total := 0;
    }
  }

  // ---------------------------------------------------------------- examples

  /** A pattern whose first character never appears early enough in `s` is not in `s`. */
  lemma FirstCharNowhere(pat: string, s: string)
    requires pat != [] && forall i :: 0 <= i <= |s| - |pat| ==> s[i] != pat[0]
    ensures !IsSubstring(pat, s)
  {
    forall i | 0 <= i <= |s| ensures !OccursAt(pat, s, i) {
      if i + |pat| <= |s| {
        assert s[i..i + |pat|][0] == s[i];
      }
    }
  }

  lemma HeadingMarksRemoved(raw: string)
    requires raw == "### Persuasiveness"
    ensures RemoveMarks(raw) == " Persuasiveness"
  {
    assert MarkAt(raw, 0);
    var rest := raw[3..];
    assert rest == " Persuasiveness";
    assert HasNoMarks(rest) by {
      forall i | 0 <= i < |rest| ensures !MarkAt(rest, i) {
        assert rest[i] != '#';
      }
    }
    RemoveMarksKeeps(rest);
  }

  lemma HeadingStripped(s: string)
    requires s == " Persuasiveness"
    ensures Strip(s) == "Persuasiveness"
  {
    assert TrimLeft(s, IsSpace) == TrimLeft(s[1..], IsSpace);
    assert s[1..] == "Persuasiveness";
    StripByKeeps(s[1..], IsSpace);
  }

  lemma HeadingLowered(s: string)
    requires s == "Persuasiveness"
    ensures Lower(s) == "persuasiveness"
  {
    var r := Lower(s);
    assert r[0] == LowerChar('P') == 'p';
    assert forall i :: 1 <= i < |s| ==> !IsUpper(s[i]);
  }

  /** A Markdown heading resolves by its cleaned name: `"### Persuasiveness"` cleans to
      `"persuasiveness"`, an exact key of the category map. */
  lemma HeadingLabelResolves(raw: string)
    requires raw == "### Persuasiveness"
    ensures CleanLabel(raw) == "persuasiveness"
    ensures Resolve(CleanLabel(raw)) == Some("Persuasiveness")
  {
    HeadingMarksRemoved(raw);
    HeadingStripped(RemoveMarks(raw));
    HeadingLowered(Strip(RemoveMarks(raw)));
    ResolveExact(CleanLabel(raw), 6);
  }

  /** The keys before `"persuasiveness"` are not in `"persuasiveness score"`. */
  lemma EarlierKeysAbsent(clean: string)
    requires clean == "persuasiveness score"
    ensures forall j :: 0 <= j < 6 ==> !IsSubstring(CategoryMap[j].0, clean)
    ensures forall j :: 0 <= j < |CategoryMap| ==> CategoryMap[j].0 != clean
  {
    FirstCharNowhere(CategoryMap[0].0, clean);
    FirstCharNowhere(CategoryMap[1].0, clean);
    FirstCharNowhere(CategoryMap[2].0, clean);
    FirstCharNowhere(CategoryMap[3].0, clean);
    FirstCharNowhere(CategoryMap[4].0, clean);
    FirstCharNowhere(CategoryMap[5].0, clean);
    forall j | 0 <= j < |CategoryMap| ensures CategoryMap[j].0 != clean {
      TablesInStep(j);
    }
  }

  /** A label with extra words resolves to the first declared key it contains. */
  lemma ExtraWordsResolve(clean: string)
    requires clean == "persuasiveness score"
    ensures Resolve(clean) == Some("Persuasiveness")
  {
    EarlierKeysAbsent(clean);
    assert OccursAt(CategoryMap[6].0, clean, 0);
    ResolveContained(clean, 6);
  }
}
