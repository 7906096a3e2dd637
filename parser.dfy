/**
  The rubric response parser of `evaluate_demand_letter` (finch-in-person/main.py):
  it turns the model's free-text evaluation into the `scores` dictionary that
  `calculate_weighted_score` consumes.
 */
module ResponseParser {
  import opened Wrappers
  import opened Text
  import opened OrderedDict
  import opened Scorer

  /** The regular expression `\b[1-5]\b` matches at position `j` of `s`: a digit 1..5
      with no word character right before or right after it. */
  predicate StandaloneDigitAt(s: string, j: int)
    ensures StandaloneDigitAt(s, j) ==> 0 <= j < |s| && '0' <= s[j] <= '9' && 1 <= DigitValue(s[j]) <= 5
    ensures StandaloneDigitAt(s, j) && j > 0 ==> !('0' <= s[j - 1] <= '9')
    ensures StandaloneDigitAt(s, j) && j + 1 < |s| ==> !('0' <= s[j + 1] <= '9')
  {
    0 <= j < |s| && '1' <= s[j] <= '5'
    && (j == 0 || !IsWordChar(s[j - 1]))
    && (j + 1 == |s| || !IsWordChar(s[j + 1]))
  }

  /** `re.search(r'\b[1-5]\b', s)` from position `from`: the leftmost match, if any. */
  function FindScore(s: string, from: nat): (r: Option<nat>)
    requires from <= |s|
    ensures r.Some? ==> from <= r.value && StandaloneDigitAt(s, r.value)
    ensures r.Some? ==> forall j :: from <= j < r.value ==> !StandaloneDigitAt(s, j)
    ensures r.None? ==> forall j :: from <= j < |s| ==> !StandaloneDigitAt(s, j)
    decreases |s| - from
  {
    if from == |s| then None
    else if StandaloneDigitAt(s, from) then Some(from)
    else FindScore(s, from + 1)
  }

  /** `int(c)` for a decimal digit. */
  function DigitValue(c: char): (d: int)
    requires '0' <= c <= '9'
    ensures 0 <= d <= 9
    ensures '1' <= c <= '5' <==> 1 <= d <= 5
  {
    c as int - '0' as int
  }

  /** The explanation of a scored line: the text after the digit with spaces and hyphens
      stripped, or, when that is empty and a next line exists, the next line stripped. */
  function Explanation(lines: seq<string>, i: nat, afterDigit: string): (r: string)
    requires i < |lines|
    ensures r != [] ==> r[0] != ' ' && r[|r| - 1] != ' '
    ensures StripBy(afterDigit, IsSpaceOrHyphen) != [] ==> r == StripBy(afterDigit, IsSpaceOrHyphen)
    ensures r == [] ==> StripBy(afterDigit, IsSpaceOrHyphen) == [] && (i + 1 < |lines| ==> Strip(lines[i + 1]) == [])
  {
    var text := StripBy(afterDigit, IsSpaceOrHyphen);
    if text == [] && i + 1 < |lines| then Strip(lines[i + 1]) else text
  }

  /** What line `i` adds to the scores: nothing without a colon or without a standalone
      digit 1..5 after the first colon; otherwise the stripped text before the colon as
      the key, with the digit as the score and its explanation. */
  function LineEntry(lines: seq<string>, i: nat): (r: Option<(string, CategoryScore)>)
    requires i < |lines|
    ensures ':' !in lines[i] ==> r.None?
    ensures r.Some? ==> ':' !in r.value.0
    ensures r.Some? ==> r.value.0 == [] || (!IsSpace(r.value.0[0]) && !IsSpace(r.value.0[|r.value.0| - 1]))
    ensures r.Some? ==> r.value.1.score.Some? && 1 <= r.value.1.score.value <= 5
    ensures r.Some? ==> r.value.1.explanation.Some?
  {
    var line := lines[i];
    match FirstIndex(line, ':')
    case None => None
    case Some(k) =>
      var rest := line[k + 1..];
      match FindScore(rest, 0)
      case None => None
      case Some(j) =>
        var key := Strip(line[..k]);
        StripByChars(line[..k], IsSpace, ':');
        Some((key, CategoryScore(Some(DigitValue(rest[j])), Some(Explanation(lines, i, rest[j + 1..])))))
  }

  /** A line whose first colon is at `k` and whose first score after it is at `j` of
      the remainder yields the stripped text before the colon, that digit and its explanation. */
  lemma LineEntryAt(lines: seq<string>, i: nat, k: nat, j: nat)
    requires i < |lines| && FirstIndex(lines[i], ':') == Some(k) && FindScore(lines[i][k + 1..], 0) == Some(j)
    ensures LineEntry(lines, i) == Some((Strip(lines[i][..k]),
      CategoryScore(Some(DigitValue(lines[i][k + 1..][j])), Some(Explanation(lines, i, lines[i][k + 1..][j + 1..])))))
  {
    var line := lines[i];
    var rest := line[k + 1..];
    var key := Strip(line[..k]);
    var c := CategoryScore(Some(DigitValue(rest[j])), Some(Explanation(lines, i, rest[j + 1..])));
    assert LineEntry(lines, i) == Some((key, c));
  }

  /** A line `pre + ":" + rest` whose `rest` holds a standalone digit 1..5 yields the
      stripped `pre`, the first such digit and the text after it. */
  lemma LineEntryScored(lines: seq<string>, i: nat, pre: string, rest: string, j: nat)
    requires i < |lines| && lines[i] == pre + ":" + rest && ':' !in pre
    requires StandaloneDigitAt(rest, j) && forall j' :: 0 <= j' < j ==> !StandaloneDigitAt(rest, j')
    ensures LineEntry(lines, i) ==
      Some((Strip(pre), CategoryScore(Some(DigitValue(rest[j])), Some(Explanation(lines, i, rest[j + 1..])))))
  {
    var line := lines[i];
    FirstIndexSplits(line, ':', pre, rest);
    assert line[..|pre|] == pre;
    assert line[|pre| + 1..] == rest;
    var m := FindScore(rest, 0);
    assert m.Some? && !(m.value < j) && !(j < m.value);
    assert m == Some(j);
    LineEntryAt(lines, i, |pre|, j);
  }

  /** The borrowed-line rule for any line: a score with nothing but spaces and hyphens
      after it takes the next line, stripped, as its explanation, and on the last line
      the explanation stays empty. */
  lemma BorrowNextLine(lines: seq<string>, i: nat, pre: string, rest: string, j: nat)
    requires i < |lines| && lines[i] == pre + ":" + rest && ':' !in pre
    requires StandaloneDigitAt(rest, j) && forall j' :: 0 <= j' < j ==> !StandaloneDigitAt(rest, j')
    requires StripBy(rest[j + 1..], IsSpaceOrHyphen) == []
    ensures i + 1 < |lines| ==>
      LineEntry(lines, i) == Some((Strip(pre), CategoryScore(Some(DigitValue(rest[j])), Some(Strip(lines[i + 1])))))
    ensures i + 1 == |lines| ==>
      LineEntry(lines, i) == Some((Strip(pre), CategoryScore(Some(DigitValue(rest[j])), Some([]))))
  {
    LineEntryScored(lines, i, pre, rest, j);
  }

  /** A line `pre + ":" + rest` without a standalone digit 1..5 in `rest` yields nothing,
      even if `pre` holds one. */
  lemma LineEntryUnscored(lines: seq<string>, i: nat, pre: string, rest: string)
    requires i < |lines| && lines[i] == pre + ":" + rest && ':' !in pre
    requires forall j :: 0 <= j < |rest| ==> !StandaloneDigitAt(rest, j)
    ensures LineEntry(lines, i).None?
  {
    FirstIndexSplits(lines[i], ':', pre, rest);
    assert lines[i][|pre| + 1..] == rest;
  }

  /** What each of the first `n` lines adds, in order. */
  function LineEntries(lines: seq<string>, n: nat): (es: seq<Option<(string, CategoryScore)>>)
    requires n <= |lines|
    ensures |es| == n && forall i :: 0 <= i < n ==> es[i] == LineEntry(lines, i)
  {
    if n == 0 then [] else LineEntries(lines, n - 1) + [LineEntry(lines, n - 1)]
  }

  /** The scores after the first `n` lines: each scored line assigns its key, a later
      line overwriting an earlier one with the same key. */
  function ParseLines(lines: seq<string>, n: nat): (d: Dict<CategoryScore>)
    requires n <= |lines|
    ensures KeysDistinct(d)
    ensures forall i :: 0 <= i < |d| ==> d[i].1.score.Some? && 1 <= d[i].1.score.value <= 5
    ensures forall i :: 0 <= i < |d| ==> ':' !in d[i].0
  {
    var es := LineEntries(lines, n);
    var d := PutAll(es);
    assert forall i :: 0 <= i < |d| ==> exists j :: 0 <= j < n && es[j] == Some(d[i]);
    d
  }

  /** One more line assigns its entry, if it has one, to the scores so far. */
  lemma ParseLinesStep(lines: seq<string>, i: nat)
    requires i < |lines|
    ensures LineEntry(lines, i).None? ==> ParseLines(lines, i + 1) == ParseLines(lines, i)
    ensures LineEntry(lines, i).Some? ==>
      ParseLines(lines, i + 1) == Put(ParseLines(lines, i), LineEntry(lines, i).value.0, LineEntry(lines, i).value.1)
  {
    var es := LineEntries(lines, i + 1);
    assert es[..i] == LineEntries(lines, i);
  }

  /** The text's lines: `evaluation_text.strip().split('\n')`. */
  function ResponseLines(evaluationText: string): (lines: seq<string>)
    ensures |lines| >= 1
  {
    SplitLines(Strip(evaluationText))
  }

  /** The scores parsed from a whole evaluation text. */
  function ParsedScores(evaluationText: string): (d: Dict<CategoryScore>)
    ensures KeysDistinct(d)
    ensures forall i :: 0 <= i < |d| ==> d[i].1.score.Some? && 1 <= d[i].1.score.value <= 5
    ensures forall i :: 0 <= i < |d| ==> ':' !in d[i].0
  {
    var lines := ResponseLines(evaluationText);
    ParseLines(lines, |lines|)
  }

  // ---------------------------------------------------------------- the dictionary

  /** The key a line assigns, or none. */
  predicate AssignsKey(lines: seq<string>, i: nat, key: string)
    requires i < |lines|
  {
    LineEntry(lines, i).Some? && LineEntry(lines, i).value.0 == key
  }

  /** A key maps to the entry of the last line that assigns it. */
  lemma LastLineWins(lines: seq<string>, n: nat, i: nat)
    requires i < n <= |lines| && LineEntry(lines, i).Some?
    requires forall j :: i < j < n ==> !AssignsKey(lines, j, LineEntry(lines, i).value.0)
    ensures Lookup(ParseLines(lines, n), LineEntry(lines, i).value.0) == Some(LineEntry(lines, i).value.1)
  {
    var es := LineEntries(lines, n);
    forall j | i < j < n && es[j].Some? ensures es[j].value.0 != es[i].value.0 {
      assert !AssignsKey(lines, j, LineEntry(lines, i).value.0);
    }
    PutAllLastWins(es, i);
  }

  /** A key no line assigns is absent. */
  lemma UnassignedKeyAbsent(lines: seq<string>, n: nat, key: string)
    requires n <= |lines|
    requires forall j :: 0 <= j < n ==> !AssignsKey(lines, j, key)
    ensures Lookup(ParseLines(lines, n), key).None?
  {
    var es := LineEntries(lines, n);
    forall j | 0 <= j < n && es[j].Some? ensures es[j].value.0 != key {
      assert !AssignsKey(lines, j, key);
    }
    PutAllAbsent(es, key);
  }

  /** Every key present was assigned by some line. */
  lemma PresentKeyAssigned(lines: seq<string>, n: nat, key: string)
    requires n <= |lines| && Lookup(ParseLines(lines, n), key).Some?
    ensures exists j :: 0 <= j < n && AssignsKey(lines, j, key)
  {
    if forall j :: 0 <= j < n ==> !AssignsKey(lines, j, key) {
      UnassignedKeyAbsent(lines, n, key);
    }
  }

  // ---------------------------------------------------------------- the loop

  /** The explanation of a scored line, read as the loop does: the text after the digit
      stripped of spaces and hyphens, or the next line when that is empty. This method
      and `ReadLine` are the statement-by-statement rendering of the loop body whose
      value `Explanation` and `LineEntry` define; their contracts tie the two together. */
  method ReadExplanation(lines: seq<string>, i: nat, afterDigit: string) returns (explanation: string)
    requires i < |lines|
    ensures explanation == Explanation(lines, i, afterDigit)
  {
    explanation := StripBy(afterDigit, IsSpaceOrHyphen);
    if explanation == [] && i + 1 < |lines| {
      explanation := Strip(lines[i + 1]);
    }
  }

  /** The body of the parsing loop for line `i`: split at the first colon, search the
      remainder for a score, strip the category, take the explanation or borrow the next line. */
  method ReadLine(lines: seq<string>, i: nat) returns (entry: Option<(string, CategoryScore)>)
    requires i < |lines|
    ensures entry == LineEntry(lines, i)
  {
    var line := lines[i];
    match FirstIndex(line, ':')
    case None =>
      entry := None;
    case Some(k) =>
      var rest := line[k + 1..];
      match FindScore(rest, 0)
      case None =>
        entry := None;
      case Some(j) =>
        var explanation := ReadExplanation(lines, i, rest[j + 1..]);
        entry := Some((Strip(line[..k]), CategoryScore(Some(DigitValue(rest[j])), Some(explanation))));
  }

  /** One turn of the parsing loop: line `i` read and, if scored, assigned. */
  method ParseStep(lines: seq<string>, i: nat, scores: Dict<CategoryScore>) returns (next: Dict<CategoryScore>)
    requires i < |lines| && scores == ParseLines(lines, i)
    ensures next == ParseLines(lines, i + 1)
  {
    var entry := ReadLine(lines, i);
    ParseLinesStep(lines, i);
    next := scores;
    if entry.Some? {
      next := Put(scores, entry.value.0, entry.value.1);
    }
  }

  /** The parsing loop of `evaluate_demand_letter`: the lines by index, each scored line
      assigned into `scores` in place. */
  method ParseScores(evaluationText: string) returns (scores: Dict<CategoryScore>)
    ensures scores == ParsedScores(evaluationText)
    ensures KeysDistinct(scores)
    ensures forall i :: 0 <= i < |scores| ==> scores[i].1.score.Some? && 1 <= scores[i].1.score.value <= 5
  {
    var lines := ResponseLines(evaluationText);
    scores := ParseAll(lines);
  }

  method ParseAll(lines: seq<string>) returns (scores: Dict<CategoryScore>)
    ensures scores == ParseLines(lines, |lines|)
  {
    scores := [];
    var i := 0;
    while i < |lines|
      invariant 0 <= i <= |lines|
      invariant scores == ParseLines(lines, i)
    {
      scores := ParseStep(lines, i, scores);
      i := i + 1;
    }
  }

  // ---------------------------------------------------------------- examples

  /** `"4/5"` is read as 4: the slash is not a word character. */
  lemma FractionGivesNumerator()
    ensures FindScore(" 4/5", 0) == Some(1)
  {
    assert !StandaloneDigitAt(" 4/5", 0);
    assert StandaloneDigitAt(" 4/5", 1);
  }

  /** `"10/10"` has no score: each digit touches another digit. */
  lemma TenOutOfTenGivesNothing()
    ensures FindScore(" 10/10", 0).None?
  {
    var s := " 10/10";
    assert forall j :: 0 <= j < |s| ==> !StandaloneDigitAt(s, j) by {
      assert s[0] == ' ' && s[1] == '1' && s[2] == '0' && s[3] == '/' && s[4] == '1' && s[5] == '0';
    }
  }

  /** A text without line breaks and without surrounding whitespace is a single line. */
  lemma SingleLineText(text: string)
    requires text != [] && !IsSpace(text[0]) && !IsSpace(text[|text| - 1]) && '\n' !in text
    ensures ResponseLines(text) == [text]
  {
    StripByKeeps(text, IsSpace);
    SplitJoinLines([text]);
  }

  /** The scores of a single line are that line's entry, if it has one. */
  lemma SingleLineScores(lines: seq<string>)
    requires |lines| >= 1 && LineEntry(lines, 0).Some?
    ensures ParseLines(lines, 1) == [LineEntry(lines, 0).value]
  {
    ParseLinesStep(lines, 0);
    var d := ParseLines(lines, 1);
    assert Lookup(d, LineEntry(lines, 0).value.0).Some?;
  }

  /** A word without surrounding whitespace is its own stripped form. */
  lemma ToneStripped(pre: string)
    requires pre == "Tone"
    ensures Strip(pre) == pre
  {
    StripByKeeps(pre, IsSpace);
  }

  /** The separator `" - "` before an explanation is stripped away. */
  lemma DashStripped(after: string)
    requires after == " - firm"
    ensures StripBy(after, IsSpaceOrHyphen) == "firm"
  {
    var firm := after[1..][1..][1..];
    assert firm == "firm";
    assert TrimLeft(after, IsSpaceOrHyphen) == TrimLeft(after[1..], IsSpaceOrHyphen)
      == TrimLeft(after[1..][1..], IsSpaceOrHyphen) == TrimLeft(firm, IsSpaceOrHyphen) == firm;
    assert TrimRight(firm, IsSpaceOrHyphen) == firm;
  }

  /** How `"Tone: 4 - firm"` splits: the parts before and after the colon. */
  lemma ToneLineParts(text: string) returns (pre: string, rest: string)
    requires text == "Tone: 4 - firm"
    ensures text == pre + ":" + rest && ':' !in pre && |rest| >= 2
    ensures !StandaloneDigitAt(rest, 0) && StandaloneDigitAt(rest, 1) && rest[1] == '4'
    ensures Strip(pre) == "Tone" && StripBy(rest[2..], IsSpaceOrHyphen) == "firm"
  {
    pre, rest := "Tone", " 4 - firm";
    ToneStripped(pre);
    DashStripped(rest[2..]);
  }

  /** A one-line evaluation in the usual `Category: score - explanation` form. */
  lemma ScoreWithExplanation(text: string)
    requires text == "Tone: 4 - firm"
    ensures ParsedScores(text) == [("Tone", CategoryScore(Some(4), Some("firm")))]
  {
    SingleLineText(text);
    var lines := [text];
    var pre, rest := ToneLineParts(text);
    LineEntryScored(lines, 0, pre, rest, 1);
    SingleLineScores(lines);
  }

  /** The two lines of `"Tone: 3\nClear."`. */
  lemma TwoLines(text: string)
    requires text == "Tone: 3\nClear."
    ensures ResponseLines(text) == ["Tone: 3", "Clear."]
  {
    StripByKeeps(text, IsSpace);
    assert JoinLines(["Tone: 3", "Clear."]) == text;
    SplitJoinLines(["Tone: 3", "Clear."]);
  }

  /** A line without a colon or surrounding whitespace. */
  lemma ClearStripped(line: string)
    requires line == "Clear."
    ensures Strip(line) == line && ':' !in line
  {
    StripByKeeps(line, IsSpace);
  }

  /** How `"Tone: 3"` splits: the parts before and after the colon, nothing after the digit. */
  lemma ToneThreeParts(line: string) returns (pre: string, rest: string)
    requires line == "Tone: 3"
    ensures line == pre + ":" + rest && ':' !in pre && |rest| == 2
    ensures !StandaloneDigitAt(rest, 0) && StandaloneDigitAt(rest, 1) && rest[1] == '3'
    ensures Strip(pre) == "Tone"
  {
    pre, rest := "Tone", " 3";
    ToneStripped(pre);
  }

  /** How `"Tone: 3\nClear."` splits: two lines, the first scored with nothing after the digit. */
  lemma BorrowedLineParts(text: string) returns (pre: string, rest: string, second: string)
    requires text == "Tone: 3\nClear."
    ensures ResponseLines(text) == [pre + ":" + rest, second]
    ensures ':' !in pre && |rest| == 2 && ':' !in second
    ensures !StandaloneDigitAt(rest, 0) && StandaloneDigitAt(rest, 1) && rest[1] == '3'
    ensures Strip(pre) == "Tone" && Strip(second) == "Clear."
  {
    TwoLines(text);
    var lines := ResponseLines(text);
    pre, rest := ToneThreeParts(lines[0]);
    second := lines[1];
    ClearStripped(second);
  }

  /** A two-line instance of the borrowed-line rule: the text after the first line's colon
      is exactly two characters, a non-word character and then a digit 1..5 (as in
      `"Tone: 3"`); the second line, having no colon, is its explanation and adds nothing
      of its own. */
  lemma BorrowedExplanation(lines: seq<string>, pre: string, rest: string)
    requires |lines| == 2 && lines[0] == pre + ":" + rest && ':' !in pre && ':' !in lines[1]
    requires |rest| == 2 && !StandaloneDigitAt(rest, 0) && StandaloneDigitAt(rest, 1)
    ensures ParseLines(lines, 2) == [(Strip(pre), CategoryScore(Some(DigitValue(rest[1])), Some(Strip(lines[1]))))]
  {
    LineEntryScored(lines, 0, pre, rest, 1);
    assert rest[2..] == [];
    StripByKeeps(rest[2..], IsSpaceOrHyphen);
    var explanation := Explanation(lines, 0, rest[2..]);
    assert explanation == Strip(lines[1]);
    assert LineEntry(lines, 0).value == (Strip(pre), CategoryScore(Some(DigitValue(rest[1])), Some(explanation)));
    SingleLineScores(lines);
    assert LineEntry(lines, 1).None?;
    ParseLinesStep(lines, 1);
  }

  /** The two turns of the loop over a line whose explanation is borrowed and the line
      it borrows from: the first assigns the borrowed text, and the borrowed line is then
      parsed like any other, adding an entry of its own exactly when it is scored. */
  lemma BorrowedLineStep(lines: seq<string>, i: nat, pre: string, rest: string, j: nat)
    requires i + 1 < |lines| && lines[i] == pre + ":" + rest && ':' !in pre
    requires StandaloneDigitAt(rest, j) && forall j' :: 0 <= j' < j ==> !StandaloneDigitAt(rest, j')
    requires StripBy(rest[j + 1..], IsSpaceOrHyphen) == []
    ensures var first := Put(ParseLines(lines, i), Strip(pre), CategoryScore(Some(DigitValue(rest[j])), Some(Strip(lines[i + 1]))));
      ParseLines(lines, i + 2) ==
        match LineEntry(lines, i + 1)
        case None => first
        case Some((k, c)) => Put(first, k, c)
  {
    BorrowNextLine(lines, i, pre, rest, j);
    ParseLinesStep(lines, i);
    ParseLinesStep(lines, i + 1);
  }

  /** The borrowed-line rule on `"Tone: 3\nClear."`. */
  lemma ExplanationOnNextLine(text: string)
    requires text == "Tone: 3\nClear."
    ensures ParsedScores(text) == [("Tone", CategoryScore(Some(3), Some("Clear.")))]
  {
    var pre, rest, second := BorrowedLineParts(text);
    BorrowedExplanation(ResponseLines(text), pre, rest);
  }
}
