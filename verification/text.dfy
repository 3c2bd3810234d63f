/**
 The Python `str` operations the pages rely on, over `string` = `seq<char>` (one
 `char` per Unicode scalar value, as Python counts characters): substring
 search, prefix and suffix tests, `strip`, `lower`, `replace`, the decimal
 rendering and parsing of integers, `zfill`, and code-point ordering of strings.
 */
module Text {
  import opened Wrappers
  import Sequences

  // ---------------------------------------------------------------------------
  // Substrings, prefixes, suffixes
  // ---------------------------------------------------------------------------

  /** Python's `k in s`: `k` occurs contiguously in `s` (the empty string occurs everywhere). */
  predicate Contains(s: string, k: string)
    decreases |s|
  {
    if |k| == 0 then true
    else if |k| > |s| then false
    else if s[..|k|] == k then true
    else Contains(s[1..], k)
  }

  /** `k` occurs in `s` starting at index `i`. */
  predicate OccursAt(s: string, k: string, i: int) {
    0 <= i <= |s| - |k| && s[i..i + |k|] == k
  }

  /** `Contains` agrees with the positional definition of a substring occurrence. */
  lemma {:induction false} ContainsIffOccurs(s: string, k: string)
    ensures Contains(s, k) <==> exists i :: OccursAt(s, k, i)
    decreases |s|
  {
    if |k| == 0 {
      assert OccursAt(s, k, 0);
    } else if |k| > |s| {
    } else if s[..|k|] == k {
      assert OccursAt(s, k, 0);
    } else {
      ContainsIffOccurs(s[1..], k);
      if Contains(s[1..], k) {
        var i :| OccursAt(s[1..], k, i);
        assert s[i + 1..i + 1 + |k|] == s[1..][i..i + |k|];
        assert OccursAt(s, k, i + 1);
      } else {
        forall i | 0 <= i <= |s| - |k|
          ensures !OccursAt(s, k, i)
        {
          if i > 0 {
            var t := s[1..];
            assert forall j :: 1 <= j < |s| ==> s[j] == t[j - 1];
            assert s[i..i + |k|] == t[i - 1..i - 1 + |k|];
            assert !OccursAt(t, k, i - 1);
          }
        }
      }
    }
  }

  /** An occurrence of `k` is also an occurrence of every prefix of `k`. */
  lemma {:induction false} ContainsPrefixOf(s: string, k: string, j: string)
    requires Contains(s, k)
    requires |j| <= |k| && k[..|j|] == j
    ensures Contains(s, j)
    decreases |s|
  {
    if |j| == 0 {
    } else if s[..|k|] == k {
      assert s[..|j|] == k[..|j|];
    } else {
      ContainsPrefixOf(s[1..], k, j);
    }
  }

  /** A text that lacks one of the characters of `k` does not contain `k`. */
  lemma NotContainsMissingChar(s: string, k: string, j: int)
    requires 0 <= j < |k| && forall i :: 0 <= i < |s| ==> s[i] != k[j]
    ensures !Contains(s, k)
  {
    ContainsIffOccurs(s, k);
    forall i | 0 <= i <= |s| - |k| ensures !OccursAt(s, k, i) {
      assert s[i..i + |k|][j] == s[i + j];
    }
  }

  /** A two-character pattern occurs in `x + y` only inside `x`, inside `y`, or across the seam. */
  lemma NotContainsPairAcross(x: string, y: string, a: char, b: char)
    requires !Contains(x, [a, b]) && !Contains(y, [a, b])
    requires |x| == 0 || |y| == 0 || x[|x| - 1] != a || y[0] != b
    ensures !Contains(x + y, [a, b])
  {
    var s := x + y;
    ContainsIffOccurs(x, [a, b]);
    ContainsIffOccurs(y, [a, b]);
    ContainsIffOccurs(s, [a, b]);
    forall i | 0 <= i <= |s| - 2 ensures !OccursAt(s, [a, b], i) {
      if i + 2 <= |x| {
        assert s[i..i + 2] == x[i..i + 2];
        assert !OccursAt(x, [a, b], i);
      } else if i >= |x| {
        assert s[i..i + 2] == y[i - |x|..i - |x| + 2];
        assert !OccursAt(y, [a, b], i - |x|);
      } else {
        assert s[i..i + 2] == [x[|x| - 1], y[0]];
      }
    }
  }

  /** Python's `s.startswith(p)`. */
  predicate StartsWith(s: string, p: string) {
    |p| <= |s| && s[..|p|] == p
  }

  /** Python's `s.endswith(p)`. */
  predicate EndsWith(s: string, p: string) {
    |p| <= |s| && s[|s| - |p|..] == p
  }

  // ---------------------------------------------------------------------------
  // Whitespace and strip
  // ---------------------------------------------------------------------------

  /** Python's `str.isspace` for one character. */
  predicate IsSpace(c: char) {
    || c == ' ' || ('\U{9}' <= c <= '\U{D}') || ('\U{1C}' <= c <= '\U{1F}')
    || c == '\U{85}' || c == '\U{A0}' || c == '\U{1680}'
    || ('\U{2000}' <= c <= '\U{200A}') || c == '\U{2028}' || c == '\U{2029}'
    || c == '\U{202F}' || c == '\U{205F}' || c == '\U{3000}'
  }

  function StripLeft(s: string): (r: string)
    ensures |r| <= |s| && r == s[|s| - |r|..]
    ensures |r| == 0 || !IsSpace(r[0])
    ensures forall i :: 0 <= i < |s| - |r| ==> IsSpace(s[i])
  {
    if |s| > 0 && IsSpace(s[0]) then StripLeft(s[1..]) else s
  }

  function StripRight(s: string): (r: string)
    ensures |r| <= |s| && r == s[..|r|]
    ensures |r| == 0 || !IsSpace(r[|r| - 1])
    ensures forall i :: |r| <= i < |s| ==> IsSpace(s[i])
  {
    if |s| > 0 && IsSpace(s[|s| - 1]) then StripRight(s[..|s| - 1]) else s
  }

  /** Python's `s.strip()`: `s` with its leading and trailing whitespace cut off. The result
      neither starts nor ends with whitespace, it sits in `s` right after the leading
      whitespace, and everything cut off before and after it is whitespace. */
  function Strip(s: string): (r: string)
    ensures |r| == 0 || (!IsSpace(r[0]) && !IsSpace(r[|r| - 1]))
    ensures OccursAt(s, r, |s| - |StripLeft(s)|)
    ensures forall i :: 0 <= i < |s| - |StripLeft(s)| ==> IsSpace(s[i])
    ensures forall i :: |s| - |StripLeft(s)| + |r| <= i < |s| ==> IsSpace(s[i])
  {
    StripEnds(s);
    PrefixOfSuffix(s, StripLeft(s), StripRight(StripLeft(s)));
    StripTrailing(s);
    StripRight(StripLeft(s))
  }

  /** What `StripRight` cuts off the end of `StripLeft(s)` is whitespace of `s`. */
  lemma StripTrailing(s: string)
    ensures var k := |s| - |StripLeft(s)|;
      forall i :: k + |StripRight(StripLeft(s))| <= i < |s| ==> IsSpace(s[i])
  {
    var l := StripLeft(s);
    SuffixTail(s, l, |StripRight(l)|);
  }

  /** Characters at or after position `m` of a suffix of `s` that are all whitespace are
      whitespace of `s`. */
  lemma SuffixTail(s: string, l: string, m: nat)
    requires |l| <= |s| && l == s[|s| - |l|..]
    requires forall i :: m <= i < |l| ==> IsSpace(l[i])
    ensures forall i :: |s| - |l| + m <= i < |s| ==> IsSpace(s[i])
  {
    var k := |s| - |l|;
    forall i | k + m <= i < |s| ensures IsSpace(s[i]) {
      assert s[i] == l[i - k];
    }
  }

  lemma StripEnds(s: string)
    ensures var r := StripRight(StripLeft(s)); |r| == 0 || (!IsSpace(r[0]) && !IsSpace(r[|r| - 1]))
  {
    var l := StripLeft(s);
    var r := StripRight(l);
    if |r| > 0 {
      assert r[0] == l[0];
    }
  }

  /** A prefix of a suffix of `s` is an infix of `s`, starting where the suffix does. */
  lemma PrefixOfSuffix(s: string, l: string, r: string)
    requires |l| <= |s| && l == s[|s| - |l|..]
    requires |r| <= |l| && r == l[..|r|]
    ensures OccursAt(s, r, |s| - |l|)
  {
    SliceOfSlice(s, |s| - |l|, |r|);
  }

  /** Taking `n` characters after dropping `k` is the slice from `k` to `k + n`. */
  lemma SliceOfSlice(s: string, k: nat, n: nat)
    requires k + n <= |s|
    ensures s[k..][..n] == s[k..k + n]
  {
  }

  /** `strip` adds no character. */
  lemma StripKeepsAbsent(s: string, c: char)
    requires forall i :: 0 <= i < |s| ==> s[i] != c
    ensures forall i :: 0 <= i < |Strip(s)| ==> Strip(s)[i] != c
  {
    var r := Strip(s);
    assert forall i :: 0 <= i < |r| ==> r[i] == s[|s| - |StripLeft(s)| + i];
  }

  /** A text that neither starts nor ends with whitespace is its own `strip`, and leading
      whitespace in front of it is removed. */
  lemma StripTrimmed(w: string, t: string)
    requires forall i :: 0 <= i < |w| ==> IsSpace(w[i])
    requires |t| > 0 && !IsSpace(t[0]) && !IsSpace(t[|t| - 1])
    ensures Strip(w + t) == t
  {
    StripLeftPast(w, t);
  }

  lemma {:induction false} StripLeftPast(w: string, t: string)
    requires forall i :: 0 <= i < |w| ==> IsSpace(w[i])
    requires |t| > 0 && !IsSpace(t[0])
    ensures StripLeft(w + t) == t
  {
    if |w| == 0 {
      assert w + t == t;
    } else {
      assert (w + t)[1..] == w[1..] + t;
      StripLeftPast(w[1..], t);
    }
  }

  // ---------------------------------------------------------------------------
  // Case
  // ---------------------------------------------------------------------------

  /** Python's `str.lower` on one character, for ASCII and Latin-1 capitals. */
  function LowerChar(c: char): char {
    if 'A' <= c <= 'Z' || ('\U{C0}' <= c <= '\U{DE}' && c != '\U{D7}') then
      (c as int + 32) as char
    else c
  }

  /** Python's `s.lower()` (see `LowerChar`). */
  function Lower(s: string): (r: string)
    ensures |r| == |s|
    ensures forall i :: 0 <= i < |s| ==> r[i] == LowerChar(s[i])
  {
    if |s| == 0 then [] else [LowerChar(s[0])] + Lower(s[1..])
  }

  predicate IsAsciiLowerOrDigit(c: char) {
    'a' <= c <= 'z' || '0' <= c <= '9'
  }

  /** `re.sub(r'[^a-z0-9]', '', s)`: keep only lower-case ASCII letters and digits. */
  function KeepLowerAlnum(s: string): (r: string)
    ensures |r| <= |s|
    ensures forall i :: 0 <= i < |r| ==> IsAsciiLowerOrDigit(r[i])
  {
    if |s| == 0 then []
    else (if IsAsciiLowerOrDigit(s[0]) then [s[0]] else []) + KeepLowerAlnum(s[1..])
  }

  lemma LowerAppend(a: string, b: string)
    ensures Lower(a + b) == Lower(a) + Lower(b)
  {
  }

  lemma {:induction false} KeepLowerAlnumAppend(a: string, b: string)
    ensures KeepLowerAlnum(a + b) == KeepLowerAlnum(a) + KeepLowerAlnum(b)
  {
    if |a| == 0 {
      assert a + b == b;
    } else {
      assert (a + b)[1..] == a[1..] + b;
      KeepLowerAlnumAppend(a[1..], b);
    }
  }

  lemma {:induction false} KeepLowerAlnumOfClean(s: string)
    requires forall i :: 0 <= i < |s| ==> IsAsciiLowerOrDigit(s[i])
    ensures KeepLowerAlnum(s) == s
  {
    if |s| > 0 {
      KeepLowerAlnumOfClean(s[1..]);
    }
  }

  // ---------------------------------------------------------------------------
  // Replace
  // ---------------------------------------------------------------------------

  /** Python's `s.replace(p, "")`: delete the non-overlapping occurrences of `p`, scanning left to right. */
  function RemoveAll(s: string, p: string): (r: string)
    requires |p| > 0
    ensures |r| <= |s|
    decreases |s|
  {
    if |s| == 0 then []
    else if StartsWith(s, p) then RemoveAll(s[|p|..], p)
    else [s[0]] + RemoveAll(s[1..], p)
  }

  /** Python's `s.replace(a, b)` for single characters `a` and `b`. */
  function ReplaceChar(s: string, a: char, b: char): (r: string)
    ensures |r| == |s|
    ensures forall i :: 0 <= i < |s| ==> r[i] == if s[i] == a then b else s[i]
  {
    if |s| == 0 then [] else [if s[0] == a then b else s[0]] + ReplaceChar(s[1..], a, b)
  }

  /** Python's `s.count(c)` for a single character. */
  function Count(s: string, c: char): nat {
    if |s| == 0 then 0 else (if s[0] == c then 1 else 0) + Count(s[1..], c)
  }

  lemma {:induction false} CountAppend(a: string, b: string, c: char)
    ensures Count(a + b, c) == Count(a, c) + Count(b, c)
  {
    if |a| == 0 {
      assert a + b == b;
    } else {
      assert (a + b)[1..] == a[1..] + b;
      CountAppend(a[1..], b, c);
    }
  }

  /** Deleting a single character distributes over concatenation. */
  lemma {:induction false} RemoveCharAppend(a: string, b: string, c: char)
    ensures RemoveAll(a + b, [c]) == RemoveAll(a, [c]) + RemoveAll(b, [c])
  {
    if |a| == 0 {
      assert a + b == b;
    } else {
      assert (a + b)[1..] == a[1..] + b;
      assert StartsWith(a + b, [c]) == StartsWith(a, [c]);
      RemoveCharAppend(a[1..], b, c);
    }
  }

  /** Deleting a single character leaves none of it behind. */
  lemma {:induction false} RemoveCharGone(s: string, c: char)
    ensures forall i :: 0 <= i < |RemoveAll(s, [c])| ==> RemoveAll(s, [c])[i] != c
    decreases |s|
  {
    if |s| > 0 {
      RemoveCharGone(s[1..], c);
    }
  }

  /** A pattern that does not occur is not deleted. */
  lemma {:induction false} RemoveAllAbsent(s: string, p: string)
    requires |p| > 0 && !Contains(s, p)
    ensures RemoveAll(s, p) == s
    decreases |s|
  {
    if |s| > 0 {
      RemoveAllAbsent(s[1..], p);
      assert [s[0]] + s[1..] == s;
    }
  }

  /** A pattern whose first character is nowhere in `s` does not occur in `s`. */
  lemma {:induction false} AbsentHead(s: string, k: string)
    requires |k| > 0 && forall i :: 0 <= i < |s| ==> s[i] != k[0]
    ensures !Contains(s, k)
    decreases |s|
  {
    if |k| <= |s| {
      assert s[..|k|][0] == s[0];
      assert forall i :: 0 <= i < |s| - 1 ==> s[1..][i] == s[i + 1];
      AbsentHead(s[1..], k);
    }
  }

  /** `s.replace(p, "")` on a text that starts with `p` drops that occurrence first. */
  lemma RemoveAllLeading(p: string, s: string)
    requires |p| > 0
    ensures RemoveAll(p + s, p) == RemoveAll(s, p)
  {
    assert (p + s)[..|p|] == p && (p + s)[|p|..] == s;
  }

  /** A character that does not occur is counted zero times. */
  lemma {:induction false} CountAbsent(s: string, c: char)
    requires forall i :: 0 <= i < |s| ==> s[i] != c
    ensures Count(s, c) == 0
  {
    if |s| > 0 {
      CountAbsent(s[1..], c);
    }
  }

  /** Deleting a pattern that does not mention `d` keeps every `d`. */
  lemma {:induction false} CountRemoveAll(s: string, p: string, d: char)
    requires |p| > 0 && forall i :: 0 <= i < |p| ==> p[i] != d
    ensures Count(RemoveAll(s, p), d) == Count(s, d)
    decreases |s|
  {
    if |s| > 0 {
      if StartsWith(s, p) {
        CountRemoveAll(s[|p|..], p, d);
        assert s == p + s[|p|..];
        CountAppend(p, s[|p|..], d);
        CountAbsent(p, d);
      } else {
        CountRemoveAll(s[1..], p, d);
        CountAppend([s[0]], RemoveAll(s[1..], p), d);
      }
    }
  }

  /** After `s.replace(a, b)` the `b`s are the old `b`s and the old `a`s, and no `a` is left. */
  lemma {:induction false} CountReplaceChar(s: string, a: char, b: char)
    requires a != b
    ensures Count(ReplaceChar(s, a, b), b) == Count(s, b) + Count(s, a)
    ensures Count(ReplaceChar(s, a, b), a) == 0
  {
    if |s| > 0 {
      CountReplaceChar(s[1..], a, b);
      assert ReplaceChar(s, a, b)[1..] == ReplaceChar(s[1..], a, b);
    }
  }

  /** `strip` removes only whitespace, so it keeps every other character. */
  lemma {:induction false} CountStripLeft(s: string, c: char)
    requires !IsSpace(c)
    ensures Count(StripLeft(s), c) == Count(s, c)
  {
    if |s| > 0 && IsSpace(s[0]) {
      CountStripLeft(s[1..], c);
    }
  }

  lemma {:induction false} CountStripRight(s: string, c: char)
    requires !IsSpace(c)
    ensures Count(StripRight(s), c) == Count(s, c)
  {
    if |s| > 0 && IsSpace(s[|s| - 1]) {
      CountStripRight(s[..|s| - 1], c);
      assert s == s[..|s| - 1] + [s[|s| - 1]];
      CountAppend(s[..|s| - 1], [s[|s| - 1]], c);
    }
  }

  lemma CountStrip(s: string, c: char)
    requires !IsSpace(c)
    ensures Count(Strip(s), c) == Count(s, c)
  {
    CountStripLeft(s, c);
    CountStripRight(StripLeft(s), c);
  }

  // ---------------------------------------------------------------------------
  // Characters kept in order
  // ---------------------------------------------------------------------------

  /** The decimal digits of `s`, in order, everything else dropped. */
  function Digits(s: string): (r: string)
    ensures AllDigits(r) && |r| <= |s|
  {
    if |s| == 0 then [] else (if IsDigit(s[0]) then [s[0]] else []) + Digits(s[1..])
  }

  /** The digits are the characters kept by the digit test. */
  lemma {:induction false} DigitsKept(s: string)
    ensures Digits(s) == Sequences.KeepIf(s, IsDigit)
  {
    if |s| > 0 {
      DigitsKept(s[1..]);
    }
  }

  lemma {:induction false} KeepNone(s: string, keep: char -> bool)
    requires forall i :: 0 <= i < |s| ==> !keep(s[i])
    ensures Sequences.KeepIf(s, keep) == []
  {
    if |s| > 0 {
      KeepNone(s[1..], keep);
    }
  }

  /** Deleting a pattern none of whose characters is kept leaves the kept characters, in order. */
  lemma {:induction false} KeepRemoveAll(s: string, p: string, keep: char -> bool)
    requires |p| > 0 && forall i :: 0 <= i < |p| ==> !keep(p[i])
    ensures Sequences.KeepIf(RemoveAll(s, p), keep) == Sequences.KeepIf(s, keep)
    decreases |s|
  {
    if |s| > 0 {
      if StartsWith(s, p) {
        KeepRemoveAll(s[|p|..], p, keep);
        assert s == p + s[|p|..];
        Sequences.KeepIfAppend(p, s[|p|..], keep);
        KeepNone(p, keep);
      } else {
        KeepRemoveAll(s[1..], p, keep);
        Sequences.KeepIfAppend([s[0]], RemoveAll(s[1..], p), keep);
        assert Sequences.KeepIf([s[0]], keep) == if keep(s[0]) then [s[0]] else [];
      }
    }
  }

  /** Replacing one character that is not kept by another leaves the kept characters, in order. */
  lemma {:induction false} KeepReplaceChar(s: string, a: char, b: char, keep: char -> bool)
    requires !keep(a) && !keep(b)
    ensures Sequences.KeepIf(ReplaceChar(s, a, b), keep) == Sequences.KeepIf(s, keep)
  {
    if |s| > 0 {
      KeepReplaceChar(s[1..], a, b, keep);
      assert ReplaceChar(s, a, b)[1..] == ReplaceChar(s[1..], a, b);
    }
  }

  /** Replacing `a` by `b` in a text without `b` commutes with the selection, when the selection
      after the replacement keeps `b` and the one before it keeps `a`, and they agree on every
      other character: the characters kept afterwards are those kept before, with each `a` now
      a `b`. */
  lemma {:induction false} KeepReplaceSwap(s: string, a: char, b: char, before: char -> bool,
                                           after: char -> bool)
    requires forall i :: 0 <= i < |s| ==> s[i] != b
    requires before(a) && after(b)
    requires forall c :: c != a && c != b ==> after(c) == before(c)
    ensures Sequences.KeepIf(ReplaceChar(s, a, b), after)
         == ReplaceChar(Sequences.KeepIf(s, before), a, b)
  {
    if |s| > 0 {
      var rest := Sequences.KeepIf(s[1..], before);
      KeepReplaceSwap(s[1..], a, b, before, after);
      assert ReplaceChar(s, a, b)[1..] == ReplaceChar(s[1..], a, b);
      if s[0] == a {
        assert ReplaceChar([a] + rest, a, b) == [b] + ReplaceChar(rest, a, b);
      } else if before(s[0]) {
        assert ReplaceChar([s[0]] + rest, a, b) == [s[0]] + ReplaceChar(rest, a, b);
      }
    }
  }

  /** `strip` removes whitespace only, so it leaves every character that is not whitespace
      and is kept, in order. */
  lemma KeepStrip(s: string, keep: char -> bool)
    requires forall c :: IsSpace(c) ==> !keep(c)
    ensures Sequences.KeepIf(Strip(s), keep) == Sequences.KeepIf(s, keep)
  {
    KeepStripLeft(s, keep);
    KeepStripRight(StripLeft(s), keep);
  }

  lemma {:induction false} KeepStripLeft(s: string, keep: char -> bool)
    requires forall c :: IsSpace(c) ==> !keep(c)
    ensures Sequences.KeepIf(StripLeft(s), keep) == Sequences.KeepIf(s, keep)
  {
    if |s| > 0 && IsSpace(s[0]) {
      KeepStripLeft(s[1..], keep);
    }
  }

  lemma {:induction false} KeepStripRight(s: string, keep: char -> bool)
    requires forall c :: IsSpace(c) ==> !keep(c)
    ensures Sequences.KeepIf(StripRight(s), keep) == Sequences.KeepIf(s, keep)
  {
    if |s| > 0 && IsSpace(s[|s| - 1]) {
      var init, last := s[..|s| - 1], s[|s| - 1];
      KeepStripRight(init, keep);
      assert s == init + [last];
      Sequences.KeepIfAppend(init, [last], keep);
      assert Sequences.KeepIf([last], keep) == [] by {
        assert [last][1..] == [];
      }
    }
  }

  /** `strip` keeps every digit, in order. */
  lemma DigitsStrip(s: string)
    ensures Digits(Strip(s)) == Digits(s)
  {
    forall c | IsSpace(c) ensures !IsDigit(c) {
      SpaceNotDigit(c);
    }
    KeepStrip(s, IsDigit);
    DigitsKept(s);
    DigitsKept(Strip(s));
  }

  lemma SpaceNotDigit(c: char)
    requires IsSpace(c)
    ensures !IsDigit(c)
  {
  }

  predicate IsDigit(c: char) {
    '0' <= c <= '9'
  }

  predicate AllDigits(s: string) {
    forall i :: 0 <= i < |s| ==> IsDigit(s[i])
  }

  function DigitChar(d: nat): (c: char)
    requires d < 10
    ensures IsDigit(c)
  {
    ('0' as int + d) as char
  }

  function DigitValue(c: char): (d: nat)
    requires IsDigit(c)
    ensures d < 10 && DigitChar(d) == c
  {
    (c as int - '0' as int)
  }

  /** Python's `str(n)` for a non-negative integer: its decimal digits, most significant first, no leading zero. */
  function NatStr(n: nat): (r: string)
    ensures 1 <= |r| && AllDigits(r)
    ensures |r| > 1 ==> r[0] != '0'
  {
    if n < 10 then [DigitChar(n)] else NatStr(n / 10) + [DigitChar(n % 10)]
  }

  /** The value of a string of decimal digits (the empty string reads as zero). */
  function DigitsValue(s: string): nat
    requires AllDigits(s)
  {
    if |s| == 0 then 0 else DigitsValue(s[..|s| - 1]) * 10 + DigitValue(s[|s| - 1])
  }

  /** A two-digit string reads as tens and units. */
  lemma DigitsValuePair(a: char, b: char)
    requires IsDigit(a) && IsDigit(b)
    ensures DigitsValue([a, b]) == DigitValue(a) * 10 + DigitValue(b)
  {
    var t := [a, b];
    assert t[..|t| - 1] == [a] && t[|t| - 1] == b;
    assert [a][..0] == [] && [a][0] == a;
    assert DigitsValue([a]) == DigitValue(a);
    assert DigitsValue(t) == DigitsValue([a]) * 10 + DigitValue(b);
  }

  /** Reading back the decimal rendering of `n` gives `n`. */
  lemma {:induction false} NatStrRoundTrip(n: nat)
    ensures DigitsValue(NatStr(n)) == n
  {
    if n >= 10 {
      var s := NatStr(n);
      assert s[..|s| - 1] == NatStr(n / 10);
      NatStrRoundTrip(n / 10);
    }
  }

  /** Leading zeros do not change the value of a digit string. */
  lemma {:induction false} DigitsValueLeadingZeros(z: string, s: string)
    requires forall i :: 0 <= i < |z| ==> z[i] == '0'
    requires AllDigits(s)
    ensures AllDigits(z + s) && DigitsValue(z + s) == DigitsValue(s)
    decreases |s|
  {
    if |s| == 0 {
      assert z + s == z;
      ZerosValue(z);
    } else {
      assert (z + s)[..|z + s| - 1] == z + s[..|s| - 1];
      DigitsValueLeadingZeros(z, s[..|s| - 1]);
    }
  }

  lemma {:induction false} ZerosValue(z: string)
    requires forall i :: 0 <= i < |z| ==> z[i] == '0'
    ensures AllDigits(z) && DigitsValue(z) == 0
  {
    if |z| > 0 {
      ZerosValue(z[..|z| - 1]);
    }
  }

  /** The number of decimal digits of `n` is below three exactly when `n` is below one hundred. */
  lemma {:induction false} NatStrLength(n: nat)
    ensures n < 10 ==> |NatStr(n)| == 1
    ensures 10 <= n < 100 ==> |NatStr(n)| == 2
    ensures n >= 100 ==> |NatStr(n)| >= 3
  {
    if n >= 10 {
      NatStrLength(n / 10);
    }
  }

  function Zeros(k: nat): (r: string)
    ensures |r| == k && forall i :: 0 <= i < k ==> r[i] == '0'
  {
    if k == 0 then [] else ['0'] + Zeros(k - 1)
  }

  /** Python's `s.zfill(w)`: pad with `0` on the left, after a leading sign, up to width `w`. */
  function ZFill(s: string, w: nat): (r: string)
    ensures |r| == if |s| >= w then |s| else w
    ensures |s| >= w ==> r == s
    ensures |s| < w && AllDigits(s) ==> r == Zeros(w - |s|) + s
  {
    if |s| >= w then s
    else if |s| > 0 && (s[0] == '+' || s[0] == '-') then [s[0]] + Zeros(w - |s|) + s[1..]
    else Zeros(w - |s|) + s
  }

  /** Zero-filling a digit string keeps its value. */
  lemma ZFillValue(s: string, w: nat)
    requires AllDigits(s)
    ensures AllDigits(ZFill(s, w)) && DigitsValue(ZFill(s, w)) == DigitsValue(s)
  {
    if |s| < w {
      DigitsValueLeadingZeros(Zeros(w - |s|), s);
    }
  }

  /** Python's `str(i)` for an integer. */
  function IntStr(i: int): (r: string)
    ensures 1 <= |r|
    ensures i < 0 <==> r[0] == '-'
  {
    if i < 0 then "-" + NatStr(-i) else NatStr(i)
  }

  /** Python's `int(s)` on an optional `-` followed by decimal digits; `None` where `int` raises. */
  function ParseInt(s: string): (r: Option<int>)
    ensures r.Some? ==> 1 <= |s|
  {
    if 1 <= |s| && AllDigits(s) then Some(DigitsValue(s))
    else if 2 <= |s| && s[0] == '-' && AllDigits(s[1..]) then Some(0 - DigitsValue(s[1..]))
    else None
  }

  /** `int(str(i)) == i`. */
  lemma IntStrRoundTrip(i: int)
    ensures ParseInt(IntStr(i)) == Some(i)
  {
    NatStrRoundTrip(if i < 0 then -i else i);
    if i < 0 {
      assert IntStr(i)[1..] == NatStr(-i);
    }
  }

  // ---------------------------------------------------------------------------
  // Thousands separators
  // ---------------------------------------------------------------------------

  /** Every character of `r` is a digit or a `.`, and the `.`s sit exactly four apart counting
      from the end, with three digits after the last one. */
  predicate GroupedFromRight(r: string) {
    forall i :: 0 <= i < |r| ==> (r[i] == '.' <==> (|r| - i) % 4 == 0) && (r[i] == '.' || IsDigit(r[i]))
  }

  /** Python's `f"{n:,}"` on a string of decimal digits, with the separator already turned into
      `.`: a `.` before every group of three digits counted from the right. */
  function GroupDigits(d: string): (r: string)
    requires AllDigits(d)
    ensures RemoveAll(r, ".") == d
    ensures GroupedFromRight(r)
    ensures |d| > 0 ==> |r| == |d| + (|d| - 1) / 3
    decreases |d|
  {
    if |d| <= 3 then
      AbsentHead(d, ".");
      RemoveAllAbsent(d, ".");
      d
    else
      var g := GroupDigits(d[..|d| - 3]);
      GroupStep(d[..|d| - 3], d[|d| - 3..], g);
      assert d == d[..|d| - 3] + d[|d| - 3..];
      g + "." + d[|d| - 3..]
  }

  /** Putting a `.` and the last three digits after the grouping of the leading digits groups
      the whole. */
  lemma GroupStep(head: string, tail: string, g: string)
    requires AllDigits(head) && AllDigits(tail) && |tail| == 3
    requires RemoveAll(g, ".") == head && GroupedFromRight(g)
    ensures RemoveAll(g + "." + tail, ".") == head + tail
    ensures GroupedFromRight(g + "." + tail)
  {
    SeparatorsRemoved(g, tail);
    SeparatorsPlaced(g, tail);
  }

  lemma SeparatorsRemoved(g: string, tail: string)
    requires AllDigits(tail)
    ensures RemoveAll(g + "." + tail, ".") == RemoveAll(g, ".") + tail
  {
    assert g + "." + tail == g + ("." + tail);
    RemoveCharAppend(g, "." + tail, '.');
    RemoveCharAppend(".", tail, '.');
    AbsentHead(tail, ".");
    RemoveAllAbsent(tail, ".");
    assert RemoveAll(".", ".") == [];
  }

  lemma SeparatorsPlaced(g: string, tail: string)
    requires AllDigits(tail) && |tail| == 3 && GroupedFromRight(g)
    ensures GroupedFromRight(g + "." + tail)
  {
    var r := g + "." + tail;
    forall i | 0 <= i < |r| ensures (r[i] == '.' <==> (|r| - i) % 4 == 0) && (r[i] == '.' || IsDigit(r[i])) {
      if i < |g| {
        assert r[i] == g[i] && |r| - i == (|g| - i) + 4;
      } else if i > |g| {
        assert r[i] == tail[i - |g| - 1];
      }
    }
  }

  /** `f"{n:,}".replace(",", ".")`: the decimal digits of `n` grouped in threes from the right,
      separated by `.`, after a `-` for a negative `n`. The text starts with the sign or the
      leading digit, and it is one `.` longer than `str(n)` per full group of three after the
      leading group. */
  function Group(n: int): (r: string)
    ensures RemoveAll(r, ".") == IntStr(n)
    ensures n >= 0 ==> GroupedFromRight(r)
    ensures n < 0 ==> r[0] == '-' && GroupedFromRight(r[1..])
    ensures |r| == |IntStr(n)| + (|NatStr(if n < 0 then -n else n)| - 1) / 3
    ensures r[0] == IntStr(n)[0]
  {
    if n < 0 then
      var g := GroupDigits(NatStr(-n));
      SignKept(g, NatStr(-n));
      assert ("-" + g)[1..] == g;
      "-" + g
    else
      GroupDigitsHead(NatStr(n));
      GroupDigits(NatStr(n))
  }

  /** The sign ahead of a grouping is not deleted with the separators. */
  lemma SignKept(g: string, d: string)
    requires RemoveAll(g, ".") == d
    ensures RemoveAll("-" + g, ".") == "-" + d
  {
    RemoveCharAppend("-", g, '.');
    RemoveAllAbsent("-", ".");
  }

  /** A grouping of at least one digit starts with the leading digit. */
  lemma GroupDigitsHead(d: string)
    requires AllDigits(d) && |d| > 0
    ensures GroupDigits(d)[0] == d[0]
  {
    var g := GroupDigits(d);
    assert g[0] != '.' by {
      GroupLength(|d|);
      assert (|g| - 0) % 4 != 0;
      assert GroupedFromRight(g);
    }
    assert d == [g[0]] + RemoveAll(g[1..], ".") by {
      RemoveAllHead(g, '.');
    }
  }

  /** A text that does not start with `c` keeps its first character when `c` is deleted. */
  lemma RemoveAllHead(s: string, c: char)
    requires |s| > 0 && s[0] != c
    ensures RemoveAll(s, [c]) == [s[0]] + RemoveAll(s[1..], [c])
  {
    assert !StartsWith(s, [c]) by {
      assert s[..1][0] == s[0];
    }
  }

  /** A grouping of `m` digits never has a multiple of four characters, so it cannot start
      with a separator. */
  lemma GroupLength(m: nat)
    requires m >= 1
    ensures (m + (m - 1) / 3) % 4 != 0
  {
    var q := (m - 1) / 3;
    var t := (m - 1) % 3;
    assert m + q == 4 * q + (t + 1);
  }

  // ---------------------------------------------------------------------------
  // Code-point order of strings (Python's `<` on `str`)
  // ---------------------------------------------------------------------------

  /** `a < b` for Python strings: lexicographic by code point, a proper prefix first. */
  predicate StrLt(a: string, b: string) {
    if |b| == 0 then false
    else if |a| == 0 then true
    else a[0] < b[0] || (a[0] == b[0] && StrLt(a[1..], b[1..]))
  }

  lemma {:induction false} StrLtIrreflexive(a: string)
    ensures !StrLt(a, a)
  {
    if |a| > 0 {
      StrLtIrreflexive(a[1..]);
    }
  }

  lemma {:induction false} StrLtTransitive(a: string, b: string, c: string)
    requires StrLt(a, b) && StrLt(b, c)
    ensures StrLt(a, c)
  {
    if |a| > 0 && a[0] == b[0] && b[0] == c[0] {
      StrLtTransitive(a[1..], b[1..], c[1..]);
    }
  }

  lemma {:induction false} StrLtConnected(a: string, b: string)
    requires a != b
    ensures StrLt(a, b) || StrLt(b, a)
  {
    if |a| > 0 && |b| > 0 && a[0] == b[0] {
      assert a == [a[0]] + a[1..] && b == [b[0]] + b[1..];
      StrLtConnected(a[1..], b[1..]);
    }
  }

  /** Python's string order is a strict total order, so `sorted` over strings is well defined. */
  lemma StrLtStrictTotal()
    ensures Sequences.StrictTotal(StrLt)
  {
    forall a ensures !StrLt(a, a) {
      StrLtIrreflexive(a);
    }
    forall a, b, c | StrLt(a, b) && StrLt(b, c) ensures StrLt(a, c) {
      StrLtTransitive(a, b, c);
    }
    forall a, b | a != b ensures StrLt(a, b) || StrLt(b, a) {
      StrLtConnected(a, b);
    }
  }
}
