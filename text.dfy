/**
  The string primitives the rubric code relies on, over ASCII: Python's `str.strip`,
  `str.lower`, `str.replace(pat, "")`, `str.split('\n')`, the `in` substring test,
  and the regular-expression notion of a word character.
 */
module Text {
  import opened Wrappers

  /** Python's `str.isspace()` on ASCII: tab, line feed, vertical tab, form feed,
      carriage return, the four separators 0x1C-0x1F and the space. */
  predicate IsSpace(c: char)
    ensures c == ' ' || c == '\t' || c == '\n' || c == '\r' ==> IsSpace(c)
    ensures IsSpace(c) ==> !IsWordChar(c)
  {
    (0x09 <= c as int <= 0x0D) || (0x1C <= c as int <= 0x20)
  }

  /** The characters named in `strip(' -')`. */
  predicate IsSpaceOrHyphen(c: char)
    ensures IsSpaceOrHyphen(c) ==> !IsWordChar(c)
    ensures c == '\t' || c == '\n' ==> !IsSpaceOrHyphen(c)
  {
    c == ' ' || c == '-'
  }

  /** `\w` of a regular expression, on ASCII. */
  predicate IsWordChar(c: char)
    ensures IsWordChar(c) ==> c as int < 128
    ensures '0' <= c <= '9' || c == '_' ==> IsWordChar(c)
  {
    ('a' <= c <= 'z') || ('A' <= c <= 'Z') || ('0' <= c <= '9') || c == '_'
  }

  predicate IsUpper(c: char) {
    'A' <= c <= 'Z'
  }

  function LowerChar(c: char): (r: char)
    ensures !IsUpper(r)
    ensures IsUpper(c) ==> r as int == c as int + 32
    ensures !IsUpper(c) ==> r == c
  {
    if IsUpper(c) then (c as int + 32) as char else c
  }

  // ---------------------------------------------------------------- stripping

  /** `lstrip`: drop the leading characters for which `drop` holds (`TrimLeftSuffix`:
      what remains is a suffix). */
  function TrimLeft(s: string, drop: char -> bool): (r: string)
    ensures |r| <= |s|
    ensures forall i :: 0 <= i < |s| - |r| ==> drop(s[i])
    ensures r != [] ==> !drop(r[0]) && r[0] == s[|s| - |r|]
  {
    if s != [] && drop(s[0]) then
      var r := TrimLeft(s[1..], drop);
      assert forall i :: 1 <= i < |s| - |r| ==> s[i] == s[1..][i - 1];
      r
    else s
  }

  lemma {:induction false} TrimLeftSuffix(s: string, drop: char -> bool)
    ensures TrimLeft(s, drop) == s[|s| - |TrimLeft(s, drop)|..]
    decreases |s|
  {
    if s != [] && drop(s[0]) {
      TrimLeftSuffix(s[1..], drop);
      var r := TrimLeft(s[1..], drop);
      assert s[1..][|s| - 1 - |r|..] == s[|s| - |r|..];
    }
  }

  /** `rstrip`: drop the trailing characters for which `drop` holds (`TrimRightPrefix`:
      what remains is a prefix). */
  function TrimRight(s: string, drop: char -> bool): (r: string)
    ensures |r| <= |s|
    ensures forall i :: |r| <= i < |s| ==> drop(s[i])
    ensures r != [] ==> !drop(r[|r| - 1]) && r[|r| - 1] == s[|r| - 1]
  {
    if s != [] && drop(s[|s| - 1]) then
      var r := TrimRight(s[..|s| - 1], drop);
      assert forall i :: |r| <= i < |s| - 1 ==> s[i] == s[..|s| - 1][i];
      r
    else s
  }

  lemma {:induction false} TrimRightPrefix(s: string, drop: char -> bool)
    ensures TrimRight(s, drop) == s[..|TrimRight(s, drop)|]
    decreases |s|
  {
    if s != [] && drop(s[|s| - 1]) {
      TrimRightPrefix(s[..|s| - 1], drop);
      var r := TrimRight(s[..|s| - 1], drop);
      assert s[..|s| - 1][..|r|] == s[..|r|];
    }
  }

  /** `r` is the part of `s` starting at `a`, and everything of `s` before and after it is dropped. */
  predicate StrippedAt(s: string, r: string, a: int, drop: char -> bool) {
    0 <= a <= |s| - |r| && r == s[a..a + |r|]
    && (forall i :: 0 <= i < a ==> drop(s[i]))
    && (forall i :: a + |r| <= i < |s| ==> drop(s[i]))
  }

  /** Where the stripped part of `s` starts: after the dropped prefix. */
  function StripStart(s: string, drop: char -> bool): nat {
    |s| - |TrimLeft(s, drop)|
  }

  /** `strip(chars)`: a part of `s` that neither starts nor ends with a dropped
      character (`StripByCutsDropped`: it is the infix at `StripStart`, and what is cut
      off is dropped characters only). */
  function StripBy(s: string, drop: char -> bool): (r: string)
    ensures StripStart(s, drop) + |r| <= |s|
    ensures r != [] ==> !drop(r[0]) && !drop(r[|r| - 1])
  {
    var t := TrimLeft(s, drop);
    TrimRightPrefix(t, drop);
    TrimRight(t, drop)
  }

  /** What `strip` keeps is the infix of `s` at `StripStart`. */
  lemma StripByInfix(s: string, drop: char -> bool)
    ensures StripBy(s, drop) == s[StripStart(s, drop)..StripStart(s, drop) + |StripBy(s, drop)|]
  {
    var t := TrimLeft(s, drop);
    var r := TrimRight(t, drop);
    var a := |s| - |t|;
    TrimLeftSuffix(s, drop);
    TrimRightPrefix(t, drop);
    assert t == s[a..] && r == t[..|r|];
    assert s[a..][..|r|] == s[a..a + |r|];
  }

  /** Everything `strip` cuts off after the kept part is a dropped character. */
  lemma StripByCutsTail(s: string, drop: char -> bool)
    ensures forall i :: StripStart(s, drop) + |StripBy(s, drop)| <= i < |s| ==> drop(s[i])
  {
    var t := TrimLeft(s, drop);
    var r := TrimRight(t, drop);
    var a := |s| - |t|;
    TrimLeftSuffix(s, drop);
    forall i | a + |r| <= i < |s| ensures drop(s[i]) {
      assert s[i] == t[i - a];
    }
  }

  /** What `strip` keeps is the infix of `s` at `StripStart`, and everything it cuts
      off, before and after, is a dropped character. */
  lemma StripByCutsDropped(s: string, drop: char -> bool)
    ensures StrippedAt(s, StripBy(s, drop), StripStart(s, drop), drop)
  {
    StripByInfix(s, drop);
    StripByCutsTail(s, drop);
  }

  /** A string that already starts and ends with kept characters is left alone. */
  lemma StripByKeeps(s: string, drop: char -> bool)
    requires s != [] ==> !drop(s[0]) && !drop(s[|s| - 1])
    ensures StripBy(s, drop) == s
  {
  }

  /** A part of a string without the marker has none either. */
  lemma InfixNoMarks(s: string, a: int, b: int)
    requires 0 <= a <= b <= |s| && HasNoMarks(s)
    ensures HasNoMarks(s[a..b])
  {
    var t := s[a..b];
    forall i | 0 <= i < |t| ensures !MarkAt(t, i) {
      if i + 3 <= |t| {
        assert t[i] == s[a + i] && t[i + 1] == s[a + i + 1] && t[i + 2] == s[a + i + 2];
        assert !MarkAt(s, a + i);
      }
    }
  }

  /** Stripping cuts off ends only, so it cannot create a `###`. */
  lemma StripByNoMarks(s: string, drop: char -> bool)
    requires HasNoMarks(s)
    ensures HasNoMarks(StripBy(s, drop))
  {
    var r := StripBy(s, drop);
    var a := StripStart(s, drop);
    StripByCutsDropped(s, drop);
    InfixNoMarks(s, a, a + |r|);
  }

  /** Stripping only removes characters. */
  lemma StripByChars(s: string, drop: char -> bool, x: char)
    requires x !in s
    ensures x !in StripBy(s, drop)
  {
    var r := StripBy(s, drop);
    var a := StripStart(s, drop);
    StripByCutsDropped(s, drop);
    forall k | 0 <= k < |r| ensures r[k] != x {
      assert r[k] == s[a + k];
    }
  }

  /** `str.strip()` with no argument. */
  function Strip(s: string): (r: string)
    ensures r != [] ==> !IsSpace(r[0]) && !IsSpace(r[|r| - 1])
    ensures |r| <= |s|
  {
    StripBy(s, IsSpace)
  }

  // ---------------------------------------------------------------- case

  /** `str.lower()` on ASCII: every upper-case letter replaced by its lower-case one. */
  function Lower(s: string): (r: string)
    ensures |r| == |s|
    ensures forall i :: 0 <= i < |s| ==> r[i] == LowerChar(s[i])
  {
    if s == [] then [] else [LowerChar(s[0])] + Lower(s[1..])
  }

  /** Lower-casing keeps every `#` and makes none. */
  lemma LowerNoMarks(s: string)
    requires HasNoMarks(s)
    ensures HasNoMarks(Lower(s))
  {
    var r := Lower(s);
    forall i | 0 <= i < |r| ensures !MarkAt(r, i) {
      assert MarkAt(r, i) ==> MarkAt(s, i);
    }
  }

  /** Lower-casing changes no white space, so a stripped string stays stripped. */
  lemma LowerKeepsStripped(s: string)
    requires s != [] ==> !IsSpace(s[0]) && !IsSpace(s[|s| - 1])
    ensures Lower(s) != [] ==> !IsSpace(Lower(s)[0]) && !IsSpace(Lower(s)[|s| - 1])
  {
  }

  /** Lower-casing a string without upper-case letters changes nothing. */
  lemma LowerKeeps(s: string)
    requires forall i :: 0 <= i < |s| ==> !IsUpper(s[i])
    ensures Lower(s) == s
  {
  }

  // ---------------------------------------------------------------- "###" removal

  /** An occurrence of the heading marker `###` starting at `i`. */
  predicate MarkAt(s: string, i: int) {
    0 <= i && i + 3 <= |s| && s[i] == '#' && s[i + 1] == '#' && s[i + 2] == '#'
  }

  predicate HasNoMarks(s: string) {
    forall i :: 0 <= i < |s| ==> !MarkAt(s, i)
  }

  /** The number of `#` characters `s` starts with. */
  function LeadingHashes(s: string): (n: nat)
    ensures n <= |s|
    ensures forall i :: 0 <= i < n ==> s[i] == '#'
    ensures n < |s| ==> s[n] != '#'
  {
    if s != [] && s[0] == '#' then 1 + LeadingHashes(s[1..]) else 0
  }

  /** The characters of `s` other than `#`, in order. */
  function WithoutHashes(s: string): string {
    if s == [] then [] else (if s[0] == '#' then [] else [s[0]]) + WithoutHashes(s[1..])
  }

  /** `s.replace("###", "")`: Python scans left to right and removes each
      non-overlapping occurrence, so a run of n `#` keeps n mod 3 of them. */
  function RemoveMarks(s: string): (r: string)
    ensures |r| <= |s|
  {
    if MarkAt(s, 0) then RemoveMarks(s[3..])
    else if s == [] then []
    else [s[0]] + RemoveMarks(s[1..])
  }

  lemma ThreeHashes(s: string)
    requires MarkAt(s, 0)
    ensures LeadingHashes(s) == 3 + LeadingHashes(s[3..])
    ensures WithoutHashes(s) == WithoutHashes(s[3..])
  {
    assert s[1..][1..][1..] == s[3..];
    assert WithoutHashes(s) == WithoutHashes(s[1..]);
    assert WithoutHashes(s[1..]) == WithoutHashes(s[1..][1..]);
    assert LeadingHashes(s) == 1 + LeadingHashes(s[1..]);
    assert LeadingHashes(s[1..]) == 1 + LeadingHashes(s[1..][1..]);
  }

  /** Without a marker at the front, a leading `#` is followed by at most one more. */
  lemma ShortRun(s: string)
    requires s != [] && s[0] == '#' && !MarkAt(s, 0)
    ensures LeadingHashes(s) == 1 + LeadingHashes(s[1..]) && LeadingHashes(s[1..]) <= 1
  {
    var t := s[1..];
    if t != [] && t[0] == '#' {
      assert t[1..] == s[2..];
      assert LeadingHashes(t) == 1 + LeadingHashes(t[1..]);
    }
  }

  /** A run of leading `#` keeps its length modulo 3. */
  lemma {:induction false} RemoveMarksLeading(s: string)
    ensures LeadingHashes(RemoveMarks(s)) == LeadingHashes(s) % 3
    decreases |s|
  {
    if MarkAt(s, 0) {
      RemoveMarksLeading(s[3..]);
      MarkDropsThree(s);
    } else if s != [] {
      if s[0] == '#' {
        RemoveMarksLeading(s[1..]);
      }
      KeptHeadHashes(s);
    }
  }

  /** A marker at the front removes three `#` from the run. */
  lemma MarkDropsThree(s: string)
    requires MarkAt(s, 0)
    requires LeadingHashes(RemoveMarks(s[3..])) == LeadingHashes(s[3..]) % 3
    ensures LeadingHashes(RemoveMarks(s)) == LeadingHashes(s) % 3
  {
    ThreeHashes(s);
    assert RemoveMarks(s) == RemoveMarks(s[3..]);
    var n := LeadingHashes(s[3..]);
    assert LeadingHashes(s) == 3 + n;
    assert (3 + n) % 3 == n % 3;
  }

  /** One or two `#` are left whole by counting in threes. */
  lemma ShortRunRemainder(n: nat)
    requires n <= 1
    ensures (1 + n) % 3 == 1 + n
  {
  }

  /** A first character that starts no marker is kept, with the one or two `#` after it. */
  lemma KeptHeadHashes(s: string)
    requires s != [] && !MarkAt(s, 0)
    requires s[0] == '#' ==> LeadingHashes(RemoveMarks(s[1..])) == LeadingHashes(s[1..]) % 3
    ensures LeadingHashes(RemoveMarks(s)) == LeadingHashes(s) % 3
  {
    var t := RemoveMarks(s[1..]);
    var r := [s[0]] + t;
    assert RemoveMarks(s) == r;
    assert r[0] == s[0] && r[1..] == t;
    if s[0] == '#' {
      ShortRun(s);
      var n := LeadingHashes(s[1..]);
      assert LeadingHashes(t) == n;
      assert LeadingHashes(r) == 1 + n;
      assert LeadingHashes(s) == 1 + n;
      ShortRunRemainder(n);
    } else {
      assert LeadingHashes(r) == 0;
      assert LeadingHashes(s) == 0;
    }
  }

  /** Every `###` is gone: none is left, nor formed by joining what remains. */
  lemma {:induction false} RemoveMarksComplete(s: string)
    ensures HasNoMarks(RemoveMarks(s))
    decreases |s|
  {
    if MarkAt(s, 0) {
      RemoveMarksComplete(s[3..]);
    } else if s != [] {
      var t := RemoveMarks(s[1..]);
      var r := [s[0]] + t;
      RemoveMarksComplete(s[1..]);
      RemoveMarksLeading(s);
      assert LeadingHashes(r) <= 2;
      assert !MarkAt(r, 0);
      forall i | 1 <= i < |r| ensures !MarkAt(r, i) {
        assert MarkAt(r, i) ==> MarkAt(t, i - 1);
      }
    }
  }

  /** A string without the marker comes back unchanged. */
  lemma {:induction false} RemoveMarksKeeps(s: string)
    requires HasNoMarks(s)
    ensures RemoveMarks(s) == s
    decreases |s|
  {
    if s != [] {
      assert !MarkAt(s, 0);
      forall i | 0 <= i < |s[1..]| ensures !MarkAt(s[1..], i) {
        assert MarkAt(s[1..], i) ==> MarkAt(s, i + 1);
      }
      RemoveMarksKeeps(s[1..]);
    }
  }

  /** Only `#` characters are removed, in groups of three: every other character
      survives, in order. */
  lemma {:induction false} RemoveMarksOnlyHashes(s: string)
    ensures WithoutHashes(RemoveMarks(s)) == WithoutHashes(s)
    ensures (|s| - |RemoveMarks(s)|) % 3 == 0
    decreases |s|
  {
    if MarkAt(s, 0) {
      ThreeHashes(s);
      RemoveMarksOnlyHashes(s[3..]);
    } else if s != [] {
      var t := RemoveMarks(s[1..]);
      RemoveMarksOnlyHashes(s[1..]);
      assert ([s[0]] + t)[1..] == t;
    }
  }

  // ---------------------------------------------------------------- search

  /** `pat` occurs in `s` at position `i`. */
  predicate OccursAt(pat: string, s: string, i: int) {
    0 <= i && i + |pat| <= |s| && s[i..i + |pat|] == pat
  }

  /** Python's `pat in s` on strings. */
  predicate IsSubstring(pat: string, s: string)
    ensures IsSubstring(pat, s) ==> |pat| <= |s|
    ensures pat == [] || pat == s ==> IsSubstring(pat, s)
  {
    assert pat == [] || pat == s ==> OccursAt(pat, s, 0);
    exists i :: 0 <= i <= |s| && OccursAt(pat, s, i)
  }

  /** `s.index(c)` without the exception: the first position of `c`, if any. */
  function FirstIndex(s: string, c: char): (r: Option<nat>)
    ensures r.None? <==> c !in s
    ensures r.Some? ==> r.value < |s| && s[r.value] == c && c !in s[..r.value]
  {
    if s == [] then None
    else if s[0] == c then Some(0)
    else
      match FirstIndex(s[1..], c)
      case None => None
      case Some(k) =>
        assert s[..k + 1] == [s[0]] + s[1..][..k];
        Some(k + 1)
  }

  /** The unique split of `s` around its first `c`, as `s.split(c, 1)` returns it. */
  lemma FirstIndexSplits(s: string, c: char, pre: string, post: string)
    requires s == pre + [c] + post && c !in pre
    ensures FirstIndex(s, c) == Some(|pre|)
  {
    assert s[|pre|] == c;
    assert forall j :: 0 <= j < |pre| ==> s[j] == pre[j];
  }

  // ---------------------------------------------------------------- lines

  /** `'\n'.join(lines)`. */
  function JoinLines(lines: seq<string>): string
    requires |lines| >= 1
  {
    if |lines| == 1 then lines[0] else lines[0] + "\n" + JoinLines(lines[1..])
  }

  /** `s.split('\n')`: the pieces between line feeds, at least one of them. */
  function SplitLines(s: string): (r: seq<string>)
    ensures |r| >= 1
    ensures forall i :: 0 <= i < |r| ==> '\n' !in r[i]
    ensures JoinLines(r) == s
    decreases |s|
  {
    match FirstIndex(s, '\n')
    case None => [s]
    case Some(k) =>
      var r := [s[..k]] + SplitLines(s[k + 1..]);
      assert r[1..] == SplitLines(s[k + 1..]);
      assert s == s[..k] + "\n" + s[k + 1..];
      r
  }

  /** Splitting undoes joining lines that hold no line feed. */
  lemma {:induction false} SplitJoinLines(lines: seq<string>)
    requires |lines| >= 1
    requires forall i :: 0 <= i < |lines| ==> '\n' !in lines[i]
    ensures SplitLines(JoinLines(lines)) == lines
  {
    if |lines| > 1 {
      var rest := JoinLines(lines[1..]);
      FirstIndexSplits(JoinLines(lines), '\n', lines[0], rest);
      var s := JoinLines(lines);
      assert s[..|lines[0]|] == lines[0];
      assert s[|lines[0]| + 1..] == rest;
      SplitJoinLines(lines[1..]);
    }
  }
}
