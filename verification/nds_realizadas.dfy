/**
 The "NDs Realizadas" page (debit notes issued): how it finds the period
 columns of the sheet, which column each filter label stands for, the
 `Mon/YY` period labels, the chronologically ordered period options, and the
 filters applied to the rows.

 The date parser (`pd.to_datetime(..., errors='coerce')`) is a parameter
 `parse` that yields the calendar (year, month) of a cell or `None`; `show`
 is Python's `str` of a cell.
 */
module NdsRealizadas {
  import opened Wrappers
  import opened Text
  import opened Sequences
  import opened Table

  // ---------------------------------------------------------------------------
  // Column-name normalisation
  // ---------------------------------------------------------------------------

  /** NFKD decomposition followed by removal of the combining marks (category Mn), for the
      Latin-1 letters and signs that decompose, the combining diacritical marks
      U+0300..U+036F (removed), and every other character unchanged. */
  function FoldChar(c: char): string {
    if '\U{C0}' <= c <= '\U{C5}' then "A"
    else if c == '\U{C7}' then "C"
    else if '\U{C8}' <= c <= '\U{CB}' then "E"
    else if '\U{CC}' <= c <= '\U{CF}' then "I"
    else if c == '\U{D1}' then "N"
    else if '\U{D2}' <= c <= '\U{D6}' then "O"
    else if '\U{D9}' <= c <= '\U{DC}' then "U"
    else if c == '\U{DD}' then "Y"
    else if '\U{E0}' <= c <= '\U{E5}' then "a"
    else if c == '\U{E7}' then "c"
    else if '\U{E8}' <= c <= '\U{EB}' then "e"
    else if '\U{EC}' <= c <= '\U{EF}' then "i"
    else if c == '\U{F1}' then "n"
    else if '\U{F2}' <= c <= '\U{F6}' then "o"
    else if '\U{F9}' <= c <= '\U{FC}' then "u"
    else if c == '\U{FD}' || c == '\U{FF}' then "y"
    else if c == '\U{AA}' then "a"
    else if c == '\U{BA}' then "o"
    else if c == '\U{B9}' then "1"
    else if c == '\U{B2}' then "2"
    else if c == '\U{B3}' then "3"
    else if c == '\U{BC}' then "1\U{2044}4"
    else if c == '\U{BD}' then "1\U{2044}2"
    else if c == '\U{BE}' then "3\U{2044}4"
    else if c == '\U{A0}' || c == '\U{A8}' || c == '\U{AF}' || c == '\U{B4}' || c == '\U{B8}' then " "
    else if c == '\U{B5}' then "\U{3BC}"
    else if '\U{300}' <= c <= '\U{36F}' then ""
    else [c]
  }

  /** The accent fold of a whole string. */
  function Fold(s: string): string {
    if |s| == 0 then [] else FoldChar(s[0]) + Fold(s[1..])
  }

  lemma {:induction false} FoldAscii(s: string)
    requires forall i :: 0 <= i < |s| ==> s[i] < '\U{80}'
    ensures Fold(s) == s
  {
    if |s| > 0 {
      FoldAscii(s[1..]);
      assert s == [s[0]] + s[1..];
    }
  }

  /** `_normalize`: fold accents, lower-case, keep only `a-z` and `0-9`. */
  function Normalize(s: string): (r: string)
    ensures forall i :: 0 <= i < |r| ==> IsAsciiLowerOrDigit(r[i])
  {
    KeepLowerAlnum(Lower(Fold(s)))
  }

  /** A normalised name normalises to itself. */
  lemma NormalizeIdempotent(s: string)
    ensures Normalize(Normalize(s)) == Normalize(s)
  {
    var n := Normalize(s);
    FoldAscii(n);
    assert Lower(n) == n;
    KeepLowerAlnumOfClean(n);
  }

  /** On ASCII text the normalisation is lower-casing followed by deleting every character
      that is not a letter or a digit. */
  lemma NormalizeAscii(s: string)
    requires forall i :: 0 <= i < |s| ==> s[i] < '\U{80}'
    ensures Normalize(s) == KeepLowerAlnum(Lower(s))
    ensures forall i :: 0 <= i < |Lower(s)| ==> Lower(s)[i] == if 'A' <= s[i] <= 'Z' then (s[i] as int + 32) as char else s[i]
  {
    FoldAscii(s);
  }

  lemma NormalizeEmpty()
    ensures Normalize("") == ""
  {
  }

  lemma {:induction false} FoldAppend(a: string, b: string)
    ensures Fold(a + b) == Fold(a) + Fold(b)
  {
    if |a| == 0 {
      assert a + b == b;
    } else {
      assert (a + b)[1..] == a[1..] + b;
      FoldAppend(a[1..], b);
    }
  }

  /** Normalising a text normalises its parts one after the other. */
  lemma NormalizeAppend(a: string, b: string)
    ensures Normalize(a + b) == Normalize(a) + Normalize(b)
  {
    FoldAppend(a, b);
    LowerAppend(Fold(a), Fold(b));
    KeepLowerAlnumAppend(Lower(Fold(a)), Lower(Fold(b)));
  }

  lemma NormalizeSpace()
    ensures Normalize(" ") == ""
  {
    NormalizeAscii(" ");
    assert Lower(" ") == " ";
    assert " "[1..] == [];
  }

  // ---------------------------------------------------------------------------
  // Keyword search over the column names
  // ---------------------------------------------------------------------------

  /** The normalised `name` contains every keyword. */
  predicate HasAll(name: string, keywords: seq<string>) {
    forall k :: 0 <= k < |keywords| ==> Contains(Normalize(name), keywords[k])
  }

  lemma HasAllPair(name: string, a: string, b: string)
    ensures HasAll(name, [a, b]) <==> Contains(Normalize(name), a) && Contains(Normalize(name), b)
  {
    assert [a, b][0] == a && [a, b][1] == b;
  }

  /** `_find_col_by_keywords`: the first column whose normalised name contains every keyword. */
  function FindColByKeywords(cols: seq<string>, keywords: seq<string>): (r: Option<string>)
    ensures r.None? <==> forall i :: 0 <= i < |cols| ==> !HasAll(cols[i], keywords)
    ensures r.Some? ==> exists i :: (0 <= i < |cols| && cols[i] == r.value && HasAll(cols[i], keywords)
      && forall j :: 0 <= j < i ==> !HasAll(cols[j], keywords))
  {
    var r := FirstWhere(cols, c => HasAll(c, keywords));
    if r.Some? then
      var i :| IsFirstWhere(cols, c => HasAll(c, keywords), i) && cols[i] == r.value;
      r
    else r
  }

  /** With no keywords every column qualifies, so the first one is returned. */
  lemma FindWithoutKeywords(cols: seq<string>)
    ensures FindColByKeywords(cols, []) == if |cols| == 0 then None else Some(cols[0])
  {
    if |cols| > 0 {
      assert HasAll(cols[0], []);
    }
  }

  // ---------------------------------------------------------------------------
  // Period-column roles
  // ---------------------------------------------------------------------------

  /** The three period columns the page looks for; `None` when the sheet has no such column. */
  datatype Roles = Roles(nd: Option<string>, aloc: Option<string>, fech: Option<string>)

  /** Python truthiness of an optional column name: `None` and `""` are false. */
  predicate Truthy(o: Option<string>) {
    o.Some? && o.value != ""
  }

  /** Python's `a or b`. */
  function Or(a: Option<string>, b: Option<string>): Option<string> {
    if Truthy(a) then a else b
  }

  /** The role detection at the top of the page, including its `or` fallbacks. */
  function DetectRoles(cols: seq<string>): (r: Roles)
    ensures r.nd.Some? ==> r.nd.value in cols
    ensures r.aloc.Some? ==> r.aloc.value in cols
    ensures r.fech.Some? ==> r.fech.value in cols
  {
    Roles(
      FindColByKeywords(cols, ["periodo", "nd"]),
      Or(FindColByKeywords(cols, ["periodo", "aloc"]), FindColByKeywords(cols, ["periodo", "alocacao"])),
      Or(FindColByKeywords(cols, ["periodo", "fech"]), FindColByKeywords(cols, ["periodo", "fechamento"])))
  }

  /** `a or b` where the fallback search uses a longer keyword than the first: the fallback can
      only succeed where the first search already did, so the first search decides alone. */
  lemma {:induction false} FallbackIsDead(cols: seq<string>, short: string, long: string)
    requires |short| > 0 && |short| <= |long| && long[..|short|] == short
    ensures Or(FindColByKeywords(cols, ["periodo", short]), FindColByKeywords(cols, ["periodo", long]))
         == FindColByKeywords(cols, ["periodo", short])
  {
    var first := FindColByKeywords(cols, ["periodo", short]);
    if first.None? {
      forall i | 0 <= i < |cols| ensures !HasAll(cols[i], ["periodo", long]) {
        HasAllPair(cols[i], "periodo", short);
        HasAllPair(cols[i], "periodo", long);
        if Contains(Normalize(cols[i]), long) {
          ContainsPrefixOf(Normalize(cols[i]), long, short);
        }
      }
    } else {
      var i :| 0 <= i < |cols| && cols[i] == first.value && HasAll(cols[i], ["periodo", short]);
      HasAllPair(cols[i], "periodo", short);
      assert cols[i] != "" by {
        if cols[i] == "" {
          NormalizeEmpty();
        }
      }
    }
  }

  /** The `or` fallbacks of the role detection never change its result: each role is the first
      column whose normalised name contains `periodo` and the short keyword. */
  lemma RolesIgnoreFallbacks(cols: seq<string>)
    ensures DetectRoles(cols) == Roles(
      FindColByKeywords(cols, ["periodo", "nd"]),
      FindColByKeywords(cols, ["periodo", "aloc"]),
      FindColByKeywords(cols, ["periodo", "fech"]))
  {
    FallbackIsDead(cols, "aloc", "alocacao");
    FallbackIsDead(cols, "fech", "fechamento");
  }

  // ---------------------------------------------------------------------------
  // Which column each filter label stands for
  // ---------------------------------------------------------------------------

  /** The filter labels of the page, in display order. */
  const FilterLabels: seq<string> := [
    "Per\U{ED}odo ND", "Per\U{ED}odo Fechamento", "\U{C1}rea", "Analista",
    "Projeto", "Conta Cont\U{E1}bil", "Status Portal", "ND"
  ]

  /** A character `\w` matches: a letter or digit of ASCII or Latin-1, or `_`. */
  predicate IsWordChar(c: char) {
    || 'a' <= c <= 'z' || 'A' <= c <= 'Z' || '0' <= c <= '9' || c == '_'
    || c == '\U{AA}' || c == '\U{B2}' || c == '\U{B3}' || c == '\U{B5}' || c == '\U{B9}' || c == '\U{BA}'
    || ('\U{BC}' <= c <= '\U{BE}') || ('\U{C0}' <= c <= '\U{D6}') || ('\U{D8}' <= c <= '\U{F6}')
    || ('\U{F8}' <= c <= '\U{FF}')
  }

  predicate AllWord(s: string) {
    forall i :: 0 <= i < |s| ==> IsWordChar(s[i])
  }

  /** Every character is one `\W` matches. */
  predicate NoWord(s: string) {
    forall i :: 0 <= i < |s| ==> !IsWordChar(s[i])
  }

  /** What `re.split(r'\W+', s)` cuts `s` into: the pieces, and the separators between them. */
  datatype Split = Split(pieces: seq<string>, seps: seq<string>)

  /** The pieces with the separators put back between them. */
  function Weave(pieces: seq<string>, seps: seq<string>): string
    requires |pieces| == |seps| + 1
    decreases |seps|
  {
    if |seps| == 0 then pieces[0] else pieces[0] + seps[0] + Weave(pieces[1..], seps[1..])
  }

  /** `sp` is how `re.split(r'\W+')` cuts `s`: put back together it gives `s`; the pieces are
      made of word characters and the separators of non-word characters; no separator is empty,
      and only the first and the last piece can be. `SplitIsUnique` shows these conditions
      leave one split per text. */
  predicate IsSplitOf(s: string, sp: Split) {
    && |sp.pieces| == |sp.seps| + 1
    && Weave(sp.pieces, sp.seps) == s
    && (forall k :: 0 <= k < |sp.pieces| ==> AllWord(sp.pieces[k]))
    && (forall k :: 0 <= k < |sp.seps| ==> |sp.seps[k]| > 0 && NoWord(sp.seps[k]))
    && (forall k :: 0 < k < |sp.pieces| - 1 ==> |sp.pieces[k]| > 0)
  }

  /** `re.split(r'\W+', s)`, pieces and separators. */
  function SplitNonWord(s: string): (r: Split)
    ensures IsSplitOf(s, r)
  {
    if |s| == 0 then Split([""], [])
    else
      var t := SplitNonWord(s[1..]);
      assert s == [s[0]] + s[1..];
      if IsWordChar(s[0]) then
        SplitWordFirst(s[0], s[1..], t);
        Split([[s[0]] + t.pieces[0]] + t.pieces[1..], t.seps)
      else if t.pieces[0] == "" && |t.seps| > 0 then
        SplitSepFirst(s[0], s[1..], t);
        Split(t.pieces, [[s[0]] + t.seps[0]] + t.seps[1..])
      else
        SplitNewSep(s[0], s[1..], t);
        Split([""] + t.pieces, [[s[0]]] + t.seps)
  }

  /** A word character in front of the text joins the first piece. */
  lemma SplitWordFirst(c: char, s: string, t: Split)
    requires IsSplitOf(s, t) && IsWordChar(c)
    ensures IsSplitOf([c] + s, Split([[c] + t.pieces[0]] + t.pieces[1..], t.seps))
  {
    var r := Split([[c] + t.pieces[0]] + t.pieces[1..], t.seps);
    WeaveFirstPiece(c, t.pieces, t.seps);
    assert forall k :: 0 < k < |r.pieces| ==> r.pieces[k] == t.pieces[k];
    assert AllWord(t.pieces[0]);
  }

  /** A non-word character in front of a text that starts with a separator joins that separator. */
  lemma SplitSepFirst(c: char, s: string, t: Split)
    requires IsSplitOf(s, t) && !IsWordChar(c) && t.pieces[0] == "" && |t.seps| > 0
    ensures IsSplitOf([c] + s, Split(t.pieces, [[c] + t.seps[0]] + t.seps[1..]))
  {
    var r := Split(t.pieces, [[c] + t.seps[0]] + t.seps[1..]);
    WeaveFirstSep(c, t.pieces, t.seps);
    assert forall k :: 0 < k < |r.seps| ==> r.seps[k] == t.seps[k];
    assert NoWord(t.seps[0]);
  }

  /** A non-word character in front of a text that starts with a word, or of the empty text,
      opens a new separator after an empty first piece. */
  lemma SplitNewSep(c: char, s: string, t: Split)
    requires IsSplitOf(s, t) && !IsWordChar(c) && (t.pieces[0] != "" || |t.seps| == 0)
    ensures IsSplitOf([c] + s, Split([""] + t.pieces, [[c]] + t.seps))
  {
    var r := Split([""] + t.pieces, [[c]] + t.seps);
    WeaveNewSep(c, t.pieces, t.seps);
    assert forall k :: 0 < k < |r.pieces| ==> r.pieces[k] == t.pieces[k - 1];
    assert forall k :: 0 < k < |r.seps| ==> r.seps[k] == t.seps[k - 1];
  }

  lemma WeaveFirstPiece(c: char, pieces: seq<string>, seps: seq<string>)
    requires |pieces| == |seps| + 1
    ensures Weave([[c] + pieces[0]] + pieces[1..], seps) == [c] + Weave(pieces, seps)
  {
    var p := [[c] + pieces[0]] + pieces[1..];
    assert p[1..] == pieces[1..];
  }

  lemma WeaveFirstSep(c: char, pieces: seq<string>, seps: seq<string>)
    requires |pieces| == |seps| + 1 && |seps| > 0 && pieces[0] == ""
    ensures Weave(pieces, [[c] + seps[0]] + seps[1..]) == [c] + Weave(pieces, seps)
  {
    var d := [[c] + seps[0]] + seps[1..];
    assert d[1..] == seps[1..];
  }

  lemma WeaveNewSep(c: char, pieces: seq<string>, seps: seq<string>)
    requires |pieces| == |seps| + 1
    ensures Weave([""] + pieces, [[c]] + seps) == [c] + Weave(pieces, seps)
  {
    var p := [""] + pieces;
    var d := [[c]] + seps;
    assert p[1..] == pieces && d[1..] == seps;
  }

  /** Two prefixes of `s`, each made of characters of one class (word characters when `word`,
      non-word characters otherwise) and each reaching the end of `s` or a character of the
      other class, are the same prefix: the longest run of that class at the start of `s`. */
  lemma LongestRun(s: string, x: string, y: string, word: bool)
    requires |x| <= |s| && s[..|x|] == x && |y| <= |s| && s[..|y|] == y
    requires forall i :: 0 <= i < |x| ==> IsWordChar(x[i]) == word
    requires forall i :: 0 <= i < |y| ==> IsWordChar(y[i]) == word
    requires |x| == |s| || IsWordChar(s[|x|]) != word
    requires |y| == |s| || IsWordChar(s[|y|]) != word
    ensures x == y
  {
  }

  /** The conditions of `IsSplitOf` leave one split per text, so they describe what
      `re.split(r'\W+')` returns completely. */
  lemma {:induction false} SplitIsUnique(s: string, a: Split, b: Split)
    requires IsSplitOf(s, a) && IsSplitOf(s, b)
    ensures a == b
    decreases |a.seps|
  {
    var p := a.pieces[0];
    var q := b.pieces[0];
    SplitHead(s, a);
    SplitHead(s, b);
    LongestRun(s, p, q, true);
    if |a.seps| == 0 || |b.seps| == 0 {
      SplitWithoutSeps(s, a, b);
    } else {
      SplitSepsAgree(s, a, b);
      var a' := Split(a.pieces[1..], a.seps[1..]);
      var b' := Split(b.pieces[1..], b.seps[1..]);
      SplitTail(s, a);
      SplitTail(s, b);
      SplitIsUnique(Weave(a'.pieces, a'.seps), a', b');
      SplitByParts(a, b);
    }
  }

  /** Two splittings of `s` with the same first piece agree on the first separator and on the
      text after it. */
  lemma SplitSepsAgree(s: string, a: Split, b: Split)
    requires IsSplitOf(s, a) && IsSplitOf(s, b)
    requires |a.seps| > 0 && |b.seps| > 0 && a.pieces[0] == b.pieces[0]
    ensures a.seps[0] == b.seps[0]
    ensures Weave(a.pieces[1..], a.seps[1..]) == Weave(b.pieces[1..], b.seps[1..])
  {
    var ra := Weave(a.pieces[1..], a.seps[1..]);
    var rb := Weave(b.pieces[1..], b.seps[1..]);
    var t := s[|a.pieces[0]|..];
    assert t == a.seps[0] + ra && t == b.seps[0] + rb;
    SplitSepHead(t, a.seps[0], a.pieces[1..], a.seps[1..]);
    SplitSepHead(t, b.seps[0], b.pieces[1..], b.seps[1..]);
    LongestRun(t, a.seps[0], b.seps[0], false);
  }

  lemma SplitByParts(a: Split, b: Split)
    requires |a.pieces| > 0 && |b.pieces| > 0 && |a.seps| > 0 && |b.seps| > 0
    requires a.pieces[0] == b.pieces[0] && a.pieces[1..] == b.pieces[1..]
    requires a.seps[0] == b.seps[0] && a.seps[1..] == b.seps[1..]
    ensures a == b
  {
    assert a.pieces == [a.pieces[0]] + a.pieces[1..] && b.pieces == [b.pieces[0]] + b.pieces[1..];
    assert a.seps == [a.seps[0]] + a.seps[1..] && b.seps == [b.seps[0]] + b.seps[1..];
  }

  /** The first piece is a prefix of `s` that ends at the end of `s` or at a non-word character. */
  lemma SplitHead(s: string, a: Split)
    requires IsSplitOf(s, a)
    ensures |a.pieces[0]| <= |s| && s[..|a.pieces[0]|] == a.pieces[0]
    ensures forall i :: 0 <= i < |a.pieces[0]| ==> IsWordChar(a.pieces[0][i])
    ensures |a.pieces[0]| == |s| || !IsWordChar(s[|a.pieces[0]|])
  {
    var p := a.pieces[0];
    assert AllWord(p);
    if |a.seps| > 0 {
      var rest := Weave(a.pieces[1..], a.seps[1..]);
      assert s == p + (a.seps[0] + rest);
      assert s[|p|] == a.seps[0][0];
      assert NoWord(a.seps[0]);
    }
  }

  /** The separator after the first piece ends at the end of the text or at a word character. */
  lemma SplitSepHead(t: string, d: string, pieces: seq<string>, seps: seq<string>)
    requires |pieces| == |seps| + 1 && t == d + Weave(pieces, seps)
    requires NoWord(d) && AllWord(pieces[0])
    requires |pieces| > 1 ==> |pieces[0]| > 0
    ensures |d| <= |t| && t[..|d|] == d
    ensures forall i :: 0 <= i < |d| ==> !IsWordChar(d[i])
    ensures |d| == |t| || IsWordChar(t[|d|])
  {
    var w := Weave(pieces, seps);
    assert t[..|d|] == d;
    if |w| > 0 {
      assert t[|d|] == w[0];
      if |seps| > 0 {
        assert w == pieces[0] + (seps[0] + Weave(pieces[1..], seps[1..]));
      }
      assert w[0] == pieces[0][0];
    }
  }

  /** Dropping the first piece and separator leaves a split of the rest. */
  lemma SplitTail(s: string, a: Split)
    requires IsSplitOf(s, a) && |a.seps| > 0
    ensures IsSplitOf(Weave(a.pieces[1..], a.seps[1..]), Split(a.pieces[1..], a.seps[1..]))
  {
    var a' := Split(a.pieces[1..], a.seps[1..]);
    assert forall k :: 0 <= k < |a'.pieces| ==> a'.pieces[k] == a.pieces[k + 1];
    assert forall k :: 0 <= k < |a'.seps| ==> a'.seps[k] == a.seps[k + 1];
  }

  /** When one of two splits of `s` with the same first piece has no separator, neither has one. */
  lemma SplitWithoutSeps(s: string, a: Split, b: Split)
    requires IsSplitOf(s, a) && IsSplitOf(s, b) && a.pieces[0] == b.pieces[0]
    requires |a.seps| == 0 || |b.seps| == 0
    ensures a == b
  {
    if |a.seps| == 0 && |b.seps| == 0 {
      assert a.pieces == [a.pieces[0]] && b.pieces == [b.pieces[0]];
    }
  }

  /** `[w for w in re.split(r'\W+', label) if len(w) > 1]`: the pieces of the label longer than
      one character, in order. */
  function LabelWords(caption: string): (r: seq<string>)
    ensures forall k :: 0 <= k < |r| ==> |r[k]| > 1 && AllWord(r[k])
    ensures forall w :: w in r <==> w in SplitNonWord(caption).pieces && |w| > 1
  {
    var pieces := SplitNonWord(caption).pieces;
    var r := KeepIf(pieces, w => |w| > 1);
    assert forall k :: 0 <= k < |r| ==> r[k] in pieces;
    r
  }

  /** A label made of one word of two or more word characters searches for that word. */
  lemma OneWordLabel(w: string)
    requires |w| > 1 && AllWord(w)
    ensures LabelWords(w) == [w]
  {
    var sp := Split([w], []);
    assert IsSplitOf(w, sp);
    SplitIsUnique(w, SplitNonWord(w), sp);
    assert KeepIf([w], (x: string) => |x| > 1) == [w] + KeepIf([w][1..], (x: string) => |x| > 1);
  }

  /** A label of two such words separated by non-word characters searches for both, in order. */
  lemma TwoWordLabel(a: string, sep: string, b: string)
    requires |a| > 1 && AllWord(a) && |b| > 1 && AllWord(b)
    requires |sep| > 0 && NoWord(sep)
    ensures LabelWords(a + sep + b) == [a, b]
  {
    var sp := Split([a, b], [sep]);
    assert [a, b][1..] == [b];
    assert Weave([a, b], [sep]) == a + sep + b;
    assert IsSplitOf(a + sep + b, sp);
    SplitIsUnique(a + sep + b, SplitNonWord(a + sep + b), sp);
    var keep := (x: string) => |x| > 1;
    assert KeepIf([b], keep) == [b] + KeepIf([b][1..], keep);
    assert KeepIf([a, b], keep) == [a] + KeepIf([a, b][1..], keep);
  }

  function NormalizeAll(ws: seq<string>): (r: seq<string>)
    ensures |r| == |ws| && forall k :: 0 <= k < |ws| ==> r[k] == Normalize(ws[k])
  {
    seq(|ws|, k requires 0 <= k < |ws| => Normalize(ws[k]))
  }

  /** `c.strip().lower() == label.strip().lower()`. */
  predicate SameName(c: string, caption: string) {
    Lower(Strip(c)) == Lower(Strip(caption))
  }

  /** Every role found is a column of the sheet. */
  predicate RolesFrom(roles: Roles, cols: seq<string>) {
    && (roles.nd.Some? ==> roles.nd.value in cols)
    && (roles.aloc.Some? ==> roles.aloc.value in cols)
    && (roles.fech.Some? ==> roles.fech.value in cols)
  }

  /** The column a filter label stands for: a column with the same trimmed, lower-cased name;
      failing that the detected ND period column when the normalised label contains `nd`, or
      the detected closing period column when it contains `fech`; failing that the first column
      whose normalised name contains every word of the label. */
  function ResolveLabel(cols: seq<string>, roles: Roles, caption: string): (r: Option<string>)
    requires RolesFrom(roles, cols)
    ensures r.Some? ==> r.value in cols
  {
    var exact := FirstWhere(cols, c => SameName(c, caption));
    if Truthy(exact) then exact
    else
      var n := Normalize(caption);
      if Contains(n, "nd") && Truthy(roles.nd) then roles.nd
      else if Contains(n, "fech") && Truthy(roles.fech) then roles.fech
      else FindColByKeywords(cols, NormalizeAll(LabelWords(caption)))
  }

  /** A non-empty column whose trimmed, lower-cased name equals the label's, ahead of every other
      such column, is the one the label stands for, whatever the period detection found. */
  lemma ExactNameWins(cols: seq<string>, roles: Roles, caption: string, i: int)
    requires RolesFrom(roles, cols)
    requires 0 <= i < |cols| && SameName(cols[i], caption) && cols[i] != ""
    requires forall j :: 0 <= j < i ==> !SameName(cols[j], caption)
    ensures ResolveLabel(cols, roles, caption) == Some(cols[i])
  {
    var exact := FirstWhere(cols, c => SameName(c, caption));
    var k :| IsFirstWhere(cols, c => SameName(c, caption), k) && cols[k] == exact.value;
    assert k == i;
  }

  lemma NormalizeNd()
    ensures Normalize("ND") == "nd"
  {
    assert Fold("ND") == "ND" by {
      assert Fold("D") == "D";
    }
    assert Lower("ND") == "nd";
    assert KeepLowerAlnum("nd") == "nd" by {
      KeepLowerAlnumOfClean("nd");
    }
  }

  /** No column has the label's trimmed, lower-cased name. */
  predicate NoNamesake(cols: seq<string>, caption: string) {
    forall j :: 0 <= j < |cols| ==> !SameName(cols[j], caption)
  }

  /** Without a column of the same name: a label whose normalised form contains `nd` stands for
      the detected ND period column, when there is one; failing that, a label containing `fech`
      stands for the detected closing period column, when there is one; failing both, the label
      stands for the first column whose normalised name contains every normalised word of the
      label. */
  lemma ResolveLabelFallbacks(cols: seq<string>, roles: Roles, caption: string)
    requires RolesFrom(roles, cols)
    ensures (NoNamesake(cols, caption) && Contains(Normalize(caption), "nd") && Truthy(roles.nd)) ==>
      ResolveLabel(cols, roles, caption) == roles.nd
    ensures (NoNamesake(cols, caption) && !(Contains(Normalize(caption), "nd") && Truthy(roles.nd))
             && Contains(Normalize(caption), "fech") && Truthy(roles.fech)) ==>
      ResolveLabel(cols, roles, caption) == roles.fech
    ensures (NoNamesake(cols, caption) && !(Contains(Normalize(caption), "nd") && Truthy(roles.nd))
             && !(Contains(Normalize(caption), "fech") && Truthy(roles.fech))) ==>
      ResolveLabel(cols, roles, caption) == FindColByKeywords(cols, NormalizeAll(LabelWords(caption)))
  {
    if NoNamesake(cols, caption) {
      assert FirstWhere(cols, c => SameName(c, caption)).None?;
    }
  }

  /** A label of two words joined by a separator searches for both words, normalised. */
  lemma TwoWordReads(a: string, sep: string, b: string)
    requires |a| > 1 && |b| > 1 && AllWord(a) && AllWord(b)
    requires |sep| > 0 && NoWord(sep)
    ensures NormalizeAll(LabelWords(a + sep + b)) == [Normalize(a), Normalize(b)]
  {
    TwoWordLabel(a, sep, b);
    NormalizeAllPair(a, b);
  }

  lemma NormalizeAllPair(a: string, b: string)
    ensures NormalizeAll([a, b]) == [Normalize(a), Normalize(b)]
  {
    var n := NormalizeAll([a, b]);
    assert n[0] == Normalize(a) && n[1] == Normalize(b);
  }

  /** A separator that normalises away leaves the two sides' normal forms side by side. */
  lemma NormalizeJoin(a: string, sep: string, b: string)
    requires Normalize(sep) == []
    ensures Normalize(a + sep + b) == Normalize(a) + Normalize(b)
  {
    NormalizeAppend(a + sep, b);
    NormalizeAppend(a, sep);
    assert Normalize(a) + [] == Normalize(a);
  }

  lemma PeriodoNdWords()
    ensures LabelWords("Per\U{ED}odo ND") == ["Per\U{ED}odo", "ND"]
  {
    assert "Per\U{ED}odo ND" == "Per\U{ED}odo" + " " + "ND";
    TwoWordLabel("Per\U{ED}odo", " ", "ND");
  }

  lemma PeriodoFechamentoWords()
    ensures LabelWords("Per\U{ED}odo Fechamento") == ["Per\U{ED}odo", "Fechamento"]
  {
    assert "Per\U{ED}odo Fechamento" == "Per\U{ED}odo" + " " + "Fechamento";
    TwoWordLabel("Per\U{ED}odo", " ", "Fechamento");
  }

  lemma ContaContabilWords()
    ensures LabelWords("Conta Cont\U{E1}bil") == ["Conta", "Cont\U{E1}bil"]
  {
    assert "Conta Cont\U{E1}bil" == "Conta" + " " + "Cont\U{E1}bil";
    TwoWordLabel("Conta", " ", "Cont\U{E1}bil");
  }

  lemma StatusPortalWords()
    ensures LabelWords("Status Portal") == ["Status", "Portal"]
  {
    assert "Status Portal" == "Status" + " " + "Portal";
    TwoWordLabel("Status", " ", "Portal");
  }

  /** The words the page's eight labels search for: each label's words as written, `Conta
      Contábil` giving `Conta` and `Contábil`. */
  lemma PageLabelWords()
    ensures LabelWords("Per\U{ED}odo ND") == ["Per\U{ED}odo", "ND"]
    ensures LabelWords("Per\U{ED}odo Fechamento") == ["Per\U{ED}odo", "Fechamento"]
    ensures LabelWords("\U{C1}rea") == ["\U{C1}rea"]
    ensures LabelWords("Analista") == ["Analista"]
    ensures LabelWords("Projeto") == ["Projeto"]
    ensures LabelWords("Conta Cont\U{E1}bil") == ["Conta", "Cont\U{E1}bil"]
    ensures LabelWords("Status Portal") == ["Status", "Portal"]
    ensures LabelWords("ND") == ["ND"]
  {
    PeriodoNdWords();
    PeriodoFechamentoWords();
    ContaContabilWords();
    StatusPortalWords();
    OneWordPageLabels();
  }

  lemma OneWordPageLabels()
    ensures LabelWords("\U{C1}rea") == ["\U{C1}rea"]
    ensures LabelWords("Analista") == ["Analista"]
    ensures LabelWords("Projeto") == ["Projeto"]
    ensures LabelWords("ND") == ["ND"]
  {
    AreaWords();
    AnalistaWords();
    ProjetoWords();
    NdWords();
  }

  lemma AreaWords() ensures LabelWords("\U{C1}rea") == ["\U{C1}rea"] { OneWordLabel("\U{C1}rea"); }
  lemma AnalistaWords() ensures LabelWords("Analista") == ["Analista"] { OneWordLabel("Analista"); }
  lemma ProjetoWords() ensures LabelWords("Projeto") == ["Projeto"] { OneWordLabel("Projeto"); }
  lemma NdWords() ensures LabelWords("ND") == ["ND"] { OneWordLabel("ND"); }

  /** Once a period ND column was detected, the label `ND` (the debit-note number) never reaches
      the keyword search: it stands for a column named `ND`, or, when the sheet has none, for the
      ND period column. */
  lemma NdLabelFallsBackToPeriodColumn(cols: seq<string>, roles: Roles)
    requires RolesFrom(roles, cols)
    requires Truthy(roles.nd)
    ensures ResolveLabel(cols, roles, "ND") == roles.nd
         || (ResolveLabel(cols, roles, "ND").Some? && SameName(ResolveLabel(cols, roles, "ND").value, "ND"))
    ensures (forall j :: 0 <= j < |cols| ==> !SameName(cols[j], "ND")) ==> ResolveLabel(cols, roles, "ND") == roles.nd
  {
    var exact := FirstWhere(cols, c => SameName(c, "ND"));
    if !Truthy(exact) {
      NormalizeNd();
      assert Contains("nd", "nd") by {
        assert "nd"[..2] == "nd";
      }
    } else {
      var i :| IsFirstWhere(cols, c => SameName(c, "ND"), i) && cols[i] == exact.value;
    }
  }

  /** The `col_map` loop for a given label resolver: the (label, column) pairs of the labels
      that resolve to a truthy column name, in label order. */
  function ColMapWith(labels: seq<string>, resolve: string -> Option<string>): (r: seq<(string, string)>)
    ensures |r| <= |labels|
    ensures forall k :: 0 <= k < |r| ==> r[k].0 in labels && resolve(r[k].0) == Some(r[k].1) && r[k].1 != ""
  {
    if |labels| == 0 then []
    else
      var found := resolve(labels[0]);
      (if Truthy(found) then [(labels[0], found.value)] else []) + ColMapWith(labels[1..], resolve)
  }

  /** The page's `col_map`: every pair names a column of the sheet that its label resolves to. */
  function ColMap(cols: seq<string>, roles: Roles, labels: seq<string>): (r: seq<(string, string)>)
    requires RolesFrom(roles, cols)
    ensures forall k :: 0 <= k < |r| ==> (r[k].0 in labels && r[k].1 in cols && r[k].1 != ""
      && ResolveLabel(cols, roles, r[k].0) == Some(r[k].1))
  {
    ColMapWith(labels, l => ResolveLabel(cols, roles, l))
  }

  function Labels(m: seq<(string, string)>): (r: seq<string>)
    ensures |r| == |m| && forall k :: 0 <= k < |m| ==> r[k] == m[k].0
  {
    seq(|m|, k requires 0 <= k < |m| => m[k].0)
  }

  /** `col_map` keeps the labels' order and omits exactly the labels that find no column. */
  lemma {:induction false} ColMapKeepsLabelOrder(labels: seq<string>, resolve: string -> Option<string>)
    ensures Labels(ColMapWith(labels, resolve)) == KeepIf(labels, l => Truthy(resolve(l)))
  {
    if |labels| > 0 {
      ColMapKeepsLabelOrder(labels[1..], resolve);
      var found := resolve(labels[0]);
      var head: seq<(string, string)> := if Truthy(found) then [(labels[0], found.value)] else [];
      var tail := ColMapWith(labels[1..], resolve);
      assert ColMapWith(labels, resolve) == head + tail;
      LabelsAppend(head, tail);
      assert Labels(head) == if Truthy(found) then [labels[0]] else [];
    }
  }

  /** Labels without repeats give `col_map` at most one pair per label. */
  lemma ColMapOnePairPerLabel(labels: seq<string>, resolve: string -> Option<string>)
    requires Distinct(labels)
    ensures forall i, j :: 0 <= i < j < |ColMapWith(labels, resolve)| ==>
      ColMapWith(labels, resolve)[i].0 != ColMapWith(labels, resolve)[j].0
  {
    ColMapKeepsLabelOrder(labels, resolve);
    KeepIfDistinct(labels, l => Truthy(resolve(l)));
    var r := ColMapWith(labels, resolve);
    assert forall i :: 0 <= i < |r| ==> Labels(r)[i] == r[i].0;
  }

  /** The page's eight labels are all different. */
  lemma FilterLabelsDistinct()
    ensures Distinct(FilterLabels)
  {
  }

  lemma LabelsAppend(a: seq<(string, string)>, b: seq<(string, string)>)
    ensures Labels(a + b) == Labels(a) + Labels(b)
  {
    assert forall k :: 0 <= k < |a| ==> (a + b)[k] == a[k];
    assert forall k :: |a| <= k < |a| + |b| ==> (a + b)[k] == b[k - |a|];
  }

  // ---------------------------------------------------------------------------
  // Period labels
  // ---------------------------------------------------------------------------

  type Month = m: int | 1 <= m <= 12 witness 1

  /** The calendar month of a parsed date (the day and time of day play no part). */
  datatype Stamp = Stamp(year: nat, month: Month)

  /** `pd.to_datetime(value, errors='coerce')`, reduced to the year and month it finds. */
  type Parser = Value -> Option<Stamp>

  const MonthAbbrevs: seq<string> :=
    ["Jan", "Fev", "Mar", "Abr", "Mai", "Jun", "Jul", "Ago", "Set", "Out", "Nov", "Dez"]

  /** The Portuguese abbreviation of a month. */
  function Abbrev(m: Month): (a: string)
    ensures |a| == 3
  {
    MonthAbbrevs[m - 1]
  }

  /** The month a three-letter abbreviation names, if any. */
  function MonthOf(a: string): (r: Option<Month>)
    ensures r.Some? ==> Abbrev(r.value) == a
  {
    if a == "Jan" then Some(1) else if a == "Fev" then Some(2) else if a == "Mar" then Some(3)
    else if a == "Abr" then Some(4) else if a == "Mai" then Some(5) else if a == "Jun" then Some(6)
    else if a == "Jul" then Some(7) else if a == "Ago" then Some(8) else if a == "Set" then Some(9)
    else if a == "Out" then Some(10) else if a == "Nov" then Some(11) else if a == "Dez" then Some(12)
    else None
  }

  lemma MonthOfAbbrev(m: Month)
    ensures MonthOf(Abbrev(m)) == Some(m)
  {
  }

  /** Reads a label `Abc/<digits>` back into the month and the number written after the slash. */
  function ParseLabel(l: string): Option<Stamp> {
    if |l| >= 5 && l[3] == '/' && MonthOf(l[..3]).Some? && AllDigits(l[4..]) then
      Some(Stamp(DigitsValue(l[4..]), MonthOf(l[..3]).value))
    else None
  }

  /** The label of a month followed by a number: abbreviation, `/`, and the number zero-filled
      to at least two digits. It reads back as that month and number. */
  function MonthLabel(m: Month, n: nat): (r: string)
    ensures ParseLabel(r) == Some(Stamp(n, m))
    ensures |r| >= 5 && r[..3] == Abbrev(m) && r[3] == '/'
    ensures n >= 100 <==> |r| >= 7
    ensures n < 100 ==> IsOptionLabel(r)
    ensures |r| == 4 + (if n < 10 then 2 else |NatStr(n)|)
    ensures n >= 10 ==> r[4] != '0'
  {
    var digits := ZFill(NatStr(n), 2);
    var r := Abbrev(m) + "/" + digits;
    assert r[..3] == Abbrev(m) && r[4..] == digits;
    MonthOfAbbrev(m);
    NatStrLength(n);
    NatStrRoundTrip(n);
    ZFillValue(NatStr(n), 2);
    r
  }

  /** The label `_format_mes_ano` writes for one date: abbreviation, `/`, and the FULL year
      zero-filled to at least two digits (`Set/2025` for 2025-09-01). */
  function RowLabel(s: Stamp): (r: string)
    ensures ParseLabel(r) == Some(s)
    ensures |r| >= 5 && r[..3] == Abbrev(s.month) && r[3] == '/'
    ensures s.year >= 100 <==> |r| >= 7
    ensures s.year < 100 ==> IsOptionLabel(r)
    ensures |r| == 4 + (if s.year < 10 then 2 else |NatStr(s.year)|)
    ensures s.year >= 10 ==> r[4] != '0'
  {
    MonthLabel(s.month, s.year)
  }

  /** An option label: abbreviation, `/`, two digits. */
  predicate IsOptionLabel(l: string) {
    |l| == 6 && MonthOf(l[..3]).Some? && l[3] == '/' && IsDigit(l[4]) && IsDigit(l[5])
  }

  /** The label `_period_options_ordered` writes for one (year, month): abbreviation, `/`, and
      `year % 100` zero-filled to two digits (`Set/25` for 2025-09-01). */
  function OptionLabel(s: Stamp): (r: string)
    ensures IsOptionLabel(r)
    ensures ParseLabel(r) == Some(Stamp(s.year % 100, s.month))
  {
    MonthLabel(s.month, s.year % 100)
  }

  /** Two dates share an option label exactly when they share the month and the last two
      digits of the year. */
  lemma OptionLabelInjective(s: Stamp, t: Stamp)
    ensures OptionLabel(s) == OptionLabel(t) <==> s.month == t.month && s.year % 100 == t.year % 100
  {
  }

  /** The row label and the option label of a date coincide exactly for years below 100; for
      every date pandas can hold they differ. */
  lemma RowAndOptionLabelsAgreeOnlyBelowYear100(s: Stamp)
    ensures RowLabel(s) == OptionLabel(s) <==> s.year < 100
  {
    if s.year < 100 {
      assert s.year % 100 == s.year;
    }
  }

  /** The documented example: 2025-09-01 is labelled `Set/2025` on the rows but offered as
      `Set/25` in the period filter. */
  lemma DocumentedExample()
    ensures RowLabel(Stamp(2025, 9)) == "Set/2025"
    ensures OptionLabel(Stamp(2025, 9)) == "Set/25"
  {
    assert NatStr(2) == "2";
    assert NatStr(20) == "20";
    assert NatStr(202) == "202";
    assert NatStr(2025) == "2025";
    assert NatStr(25) == "25";
    assert Abbrev(9) == "Set";
  }

  /** `_format_mes_ano`: one label per value, in place; `None` exactly where the date parser fails. */
  function FormatMesAno(values: seq<Value>, parse: Parser): (r: seq<Option<string>>)
    ensures |r| == |values|
    ensures forall i :: 0 <= i < |values| ==>
      (r[i].None? <==> parse(values[i]).None?) &&
      (r[i].Some? ==> ParseLabel(r[i].value) == parse(values[i]))
    ensures forall i :: 0 <= i < |values| ==> r[i] == LabelOf(parse(values[i]))
  {
    seq(|values|, i requires 0 <= i < |values| => LabelOf(parse(values[i])))
  }

  /** The label of one cell once parsed: its row label, or none where the parser failed. */
  function LabelOf(p: Option<Stamp>): (r: Option<string>)
    ensures r.None? <==> p.None?
    ensures r.Some? ==> ParseLabel(r.value) == p && r.value == RowLabel(p.value)
  {
    if p.Some? then Some(RowLabel(p.value)) else None
  }

  // ---------------------------------------------------------------------------
  // Ordered period options
  // ---------------------------------------------------------------------------

  /** Chronological order of calendar months. */
  predicate StampLt(a: Stamp, b: Stamp) {
    a.year < b.year || (a.year == b.year && a.month < b.month)
  }

  lemma StampLtStrictTotal()
    ensures StrictTotal(StampLt)
  {
  }

  /** The (year, month) of every value the parser accepts, in row order (`dt.dropna()`). */
  function ParsedStamps(values: seq<Value>, parse: Parser): (r: seq<Stamp>)
    ensures forall s :: s in r <==> exists i :: 0 <= i < |values| && parse(values[i]) == Some(s)
  {
    if |values| == 0 then []
    else
      assert forall i :: 1 <= i < |values| ==> values[i] == values[1..][i - 1];
      (if parse(values[0]).Some? then [parse(values[0]).value] else []) + ParsedStamps(values[1..], parse)
  }

  /** `sorted({(d.year, d.month) for d in dt.dropna()})`: each parsed month once, oldest first. */
  function OrderedStamps(values: seq<Value>, parse: Parser): (r: seq<Stamp>)
    ensures StrictlySorted(r, StampLt)
    ensures forall s :: s in r <==> exists i :: 0 <= i < |values| && parse(values[i]) == Some(s)
  {
    StampLtStrictTotal();
    SortDistinct(ParsedStamps(values, parse), StampLt)
  }

  /** The option label of each month, in order. */
  function OptionLabels(st: seq<Stamp>): (r: seq<string>)
    ensures |r| == |st|
    ensures forall k :: 0 <= k < |r| ==> (IsOptionLabel(r[k]) && ParseLabel(r[k]) == Some(Stamp(st[k].year % 100, st[k].month)))
    ensures forall l :: l in r <==> exists s :: s in st && OptionLabel(s) == l
  {
    var r := seq(|st|, k requires 0 <= k < |st| => OptionLabel(st[k]));
    assert forall k :: 0 <= k < |st| ==> r[k] == OptionLabel(st[k]);
    forall l ensures l in r <==> exists s :: s in st && OptionLabel(s) == l {
      if exists s :: s in st && OptionLabel(s) == l {
        var s :| s in st && OptionLabel(s) == l;
        var k :| 0 <= k < |st| && st[k] == s;
        assert r[k] == l;
      }
    }
    r
  }

  /** `_period_options_ordered`: one option label per distinct parsed month, in chronological
      order; a label is offered exactly when some value parses to a month carrying that label. */
  function PeriodOptionsOrdered(values: seq<Value>, parse: Parser): (r: seq<string>)
    ensures |r| == |OrderedStamps(values, parse)|
    ensures forall k :: 0 <= k < |r| ==> (IsOptionLabel(r[k]) &&
      ParseLabel(r[k]) == Some(Stamp(OrderedStamps(values, parse)[k].year % 100, OrderedStamps(values, parse)[k].month)))
    ensures forall l :: l in r <==>
      exists i :: 0 <= i < |values| && parse(values[i]).Some? && OptionLabel(parse(values[i]).value) == l
  {
    var st := OrderedStamps(values, parse);
    var r := OptionLabels(st);
    forall l ensures l in r <==>
      exists i :: 0 <= i < |values| && parse(values[i]).Some? && OptionLabel(parse(values[i]).value) == l
    {
      if l in r {
        var s :| s in st && OptionLabel(s) == l;
        var i :| 0 <= i < |values| && parse(values[i]) == Some(s);
      }
      if exists i :: 0 <= i < |values| && parse(values[i]).Some? && OptionLabel(parse(values[i]).value) == l {
        var i :| 0 <= i < |values| && parse(values[i]).Some? && OptionLabel(parse(values[i]).value) == l;
        assert parse(values[i]).value in st;
      }
    }
    r
  }

  /** When every parsed date lies in the same century the options carry no duplicate label. */
  lemma OptionsDistinctWithinCentury(values: seq<Value>, parse: Parser, century: nat)
    requires forall i :: 0 <= i < |values| && parse(values[i]).Some? ==> parse(values[i]).value.year / 100 == century
    ensures forall j, k :: 0 <= j < k < |PeriodOptionsOrdered(values, parse)| ==>
      PeriodOptionsOrdered(values, parse)[j] != PeriodOptionsOrdered(values, parse)[k]
  {
    var st := OrderedStamps(values, parse);
    var r := PeriodOptionsOrdered(values, parse);
    forall j, k | 0 <= j < k < |r| ensures r[j] != r[k] {
      assert st[j] in st && st[k] in st;
      var a :| 0 <= a < |values| && parse(values[a]) == Some(st[j]);
      var b :| 0 <= b < |values| && parse(values[b]) == Some(st[k]);
      assert StampLt(st[j], st[k]);
      assert ParseLabel(r[j]) != ParseLabel(r[k]);
    }
  }

  // ---------------------------------------------------------------------------
  // Options and filters of the page
  // ---------------------------------------------------------------------------

  /** `real_col in (col_periodo_nd, col_periodo_aloc, col_periodo_fech)`. */
  predicate IsPeriodColumn(roles: Roles, c: string) {
    roles.nd == Some(c) || roles.aloc == Some(c) || roles.fech == Some(c)
  }

  /** The options of the multiselect for `realCol`. A period column offers one option label per
      distinct month its cells parse to, oldest first, and a label is offered exactly when some
      cell parses to a month carrying it. Any other column offers the rendered non-missing
      cells, each once, in increasing string order. */
  function OptionsFor(roles: Roles, rows: seq<Row>, realCol: string, parse: Parser, show: Value -> string): (r: seq<string>)
    ensures IsPeriodColumn(roles, realCol) ==>
      && |r| == |OrderedStamps(Cells(rows, realCol), parse)|
      && (forall k :: 0 <= k < |r| ==> (IsOptionLabel(r[k]) && ParseLabel(r[k]) ==
            Some(Stamp(OrderedStamps(Cells(rows, realCol), parse)[k].year % 100, OrderedStamps(Cells(rows, realCol), parse)[k].month))))
      && (forall l :: l in r <==>
            exists i :: 0 <= i < |rows| && parse(Cell(rows[i], realCol)).Some? && OptionLabel(parse(Cell(rows[i], realCol)).value) == l)
    ensures !IsPeriodColumn(roles, realCol) ==>
      && StrictlySorted(r, StrLt)
      && (forall t :: t in r <==>
            exists i :: 0 <= i < |rows| && Cell(rows[i], realCol) != Missing && show(Cell(rows[i], realCol)) == t)
  {
    if IsPeriodColumn(roles, realCol) then PeriodOptionsOrdered(Cells(rows, realCol), parse)
    else ColumnOptions(rows, realCol, show)
  }

  /** The key the page compares with a selection: the `_format_mes_ano` label for a period
      column, `str(value)` for any other column. */
  function PageKey(roles: Roles, parse: Parser, show: Value -> string): KeyFn {
    (c: string, v: Value) => if IsPeriodColumn(roles, c) then LabelOf(parse(v)) else Some(show(v))
  }

  /** The row passes the non-empty selection `f` as the page compares it. */
  predicate KeptBy(roles: Roles, parse: Parser, show: Value -> string, row: Row, f: Selection) {
    var v := Cell(row, f.column);
    if IsPeriodColumn(roles, f.column) then parse(v).Some? && RowLabel(parse(v).value) in f.values
    else show(v) in f.values
  }

  /** The page's filter block (as written). A row survives exactly when it passes every
      non-empty selection: a period cell by its `_format_mes_ano` label, any other cell by
      `str(value)`; survivors keep their order. */
  function FiltrarNds(roles: Roles, rows: seq<Row>, filters: seq<Selection>, parse: Parser, show: Value -> string): (r: seq<Row>)
    ensures |r| <= |rows|
    ensures forall row :: row in r <==> (row in rows &&
      forall k :: 0 <= k < |filters| && |filters[k].values| > 0 ==> KeptBy(roles, parse, show, row, filters[k]))
  {
    var key := PageKey(roles, parse, show);
    var r := ApplyFilters(rows, filters, key);
    forall row ensures SurvivesAll(row, filters, key) <==>
      forall k :: 0 <= k < |filters| && |filters[k].values| > 0 ==> KeptBy(roles, parse, show, row, filters[k])
    {
      forall k | 0 <= k < |filters| {
        PassesIffKept(roles, parse, show, row, filters[k]);
      }
    }
    r
  }

  /** A row passes a selection under the page's key exactly when the selection is empty or keeps it. */
  lemma PassesIffKept(roles: Roles, parse: Parser, show: Value -> string, row: Row, f: Selection)
    ensures PassesSelection(row, f, PageKey(roles, parse, show)) <==> (|f.values| > 0 ==> KeptBy(roles, parse, show, row, f))
  {
    var v := Cell(row, f.column);
    var key := PageKey(roles, parse, show)(f.column, v);
    if IsPeriodColumn(roles, f.column) {
      assert key == LabelOf(parse(v));
      if parse(v).Some? {
        assert key == Some(RowLabel(parse(v).value));
      }
    } else {
      assert key == Some(show(v));
    }
  }

  /** The filter keeps the survivors in their original order. */
  lemma FiltrarNdsKeepsOrder(roles: Roles, rows: seq<Row>, filters: seq<Selection>, parse: Parser, show: Value -> string)
    ensures FiltrarNds(roles, rows, filters, parse, show)
         == KeepIf(rows, row => SurvivesAll(row, filters, PageKey(roles, parse, show)))
  {
    ApplyFiltersIsOneMask(rows, filters, PageKey(roles, parse, show));
  }

  /** With nothing selected the table is left as it is. */
  lemma FiltrarNdsEmptySelections(roles: Roles, rows: seq<Row>, filters: seq<Selection>, parse: Parser, show: Value -> string)
    requires forall k :: 0 <= k < |filters| ==> |filters[k].values| == 0
    ensures FiltrarNds(roles, rows, filters, parse, show) == rows
  {
    EmptySelectionsKeepEverything(rows, filters, PageKey(roles, parse, show));
  }

  /** As written, choosing any period option empties the period filter of every row dated in
      year 100 or later: the rows carry `Set/2025`-style labels while the options read `Set/25`.
      Only rows with a parseable date before year 100 can survive. */
  lemma PeriodSelectionDropsModernRows(roles: Roles, rows: seq<Row>, filters: seq<Selection>,
                                        parse: Parser, show: Value -> string, k: int)
    requires 0 <= k < |filters| && IsPeriodColumn(roles, filters[k].column)
    requires |filters[k].values| > 0 && forall j :: 0 <= j < |filters[k].values| ==> IsOptionLabel(filters[k].values[j])
    ensures forall row :: row in FiltrarNds(roles, rows, filters, parse, show) ==>
      parse(Cell(row, filters[k].column)).Some? && parse(Cell(row, filters[k].column)).value.year < 100
  {
    forall row | row in FiltrarNds(roles, rows, filters, parse, show)
      ensures parse(Cell(row, filters[k].column)).Some? && parse(Cell(row, filters[k].column)).value.year < 100
    {
      assert KeptBy(roles, parse, show, row, filters[k]);
      var s := parse(Cell(row, filters[k].column)).value;
      var j :| 0 <= j < |filters[k].values| && filters[k].values[j] == RowLabel(s);
      assert IsOptionLabel(RowLabel(s));
    }
  }

  /** The documented example end to end, as written: a single row dated September 2025, filtered
      on its period column by the offered option `Set/25`, is dropped. */
  lemma SeptemberRowDropped(roles: Roles, row: Row, col: string, parse: Parser, show: Value -> string)
    requires IsPeriodColumn(roles, col)
    requires parse(Cell(row, col)) == Some(Stamp(2025, 9))
    ensures FiltrarNds(roles, [row], [Selection(col, ["Set/25"])], parse, show) == []
  {
    var f := Selection(col, ["Set/25"]);
    assert RowLabel(Stamp(2025, 9)) == "Set/2025" by {
      DocumentedExample();
    }
    assert !KeptBy(roles, parse, show, row, f);
    var r := FiltrarNds(roles, [row], [f], parse, show);
    assert [f][0] == f;
    assert row !in r;
    assert forall x :: x in r ==> x == row;
  }

  /** The same row is kept once the row labels follow the options. */
  lemma SeptemberRowKeptWhenCorrected(roles: Roles, row: Row, col: string, parse: Parser, show: Value -> string)
    requires IsPeriodColumn(roles, col)
    requires parse(Cell(row, col)) == Some(Stamp(2025, 9))
    ensures FiltrarNdsCorrigido(roles, [row], [Selection(col, ["Set/25"])], parse, show) == [row]
  {
    var f := Selection(col, ["Set/25"]);
    assert OptionLabel(Stamp(2025, 9)) == "Set/25" by {
      DocumentedExample();
    }
    assert [f][0] == f;
    assert SurvivesAll(row, [f], CorrectedKey(roles, parse, show));
    var r := FiltrarNdsCorrigido(roles, [row], [f], parse, show);
    assert r == ApplyFilters([row], [f], CorrectedKey(roles, parse, show));
    assert row in r && |r| <= 1;
  }

  /** The key the page evidently intends: period cells labelled as the options are. */
  function CorrectedKey(roles: Roles, parse: Parser, show: Value -> string): KeyFn {
    (c: string, v: Value) =>
      if IsPeriodColumn(roles, c) then (if parse(v).Some? then Some(OptionLabel(parse(v).value)) else None)
      else Some(show(v))
  }

  /** The filter block with period cells labelled like the options. */
  function FiltrarNdsCorrigido(roles: Roles, rows: seq<Row>, filters: seq<Selection>, parse: Parser, show: Value -> string): (r: seq<Row>)
    ensures forall row :: row in r <==> row in rows && SurvivesAll(row, filters, CorrectedKey(roles, parse, show))
  {
    ApplyFilters(rows, filters, CorrectedKey(roles, parse, show))
  }

  /** With the corrected labels a period selection keeps exactly the rows whose month is
      selected: a row passes when its date has the month and two-digit year of a selected
      option; in particular every row behind an offered option survives choosing that option. */
  lemma CorrectedPeriodSelectionKeepsItsRows(roles: Roles, rows: seq<Row>, f: Selection, parse: Parser, show: Value -> string)
    requires IsPeriodColumn(roles, f.column)
    requires |f.values| > 0 && forall j :: 0 <= j < |f.values| ==> IsOptionLabel(f.values[j])
    ensures forall row :: row in rows && parse(Cell(row, f.column)).Some? ==>
      (row in FiltrarNdsCorrigido(roles, rows, [f], parse, show) <==>
        exists j :: 0 <= j < |f.values| && ParseLabel(f.values[j]) ==
          Some(Stamp(parse(Cell(row, f.column)).value.year % 100, parse(Cell(row, f.column)).value.month)))
  {
    var key := CorrectedKey(roles, parse, show);
    forall row | row in rows && parse(Cell(row, f.column)).Some?
      ensures row in FiltrarNdsCorrigido(roles, rows, [f], parse, show) <==>
        exists j :: 0 <= j < |f.values| && ParseLabel(f.values[j]) ==
          Some(Stamp(parse(Cell(row, f.column)).value.year % 100, parse(Cell(row, f.column)).value.month))
    {
      var s := parse(Cell(row, f.column)).value;
      var t := Stamp(s.year % 100, s.month);
      assert [f][0] == f;
      assert key(f.column, Cell(row, f.column)) == Some(OptionLabel(s));
      assert SurvivesAll(row, [f], key) <==> OptionLabel(s) in f.values;
      if OptionLabel(s) in f.values {
        var j :| 0 <= j < |f.values| && f.values[j] == OptionLabel(s);
        assert ParseLabel(f.values[j]) == Some(t);
      }
      if exists j :: 0 <= j < |f.values| && ParseLabel(f.values[j]) == Some(t) {
        var j :| 0 <= j < |f.values| && ParseLabel(f.values[j]) == Some(t);
        OptionLabelRoundTrip(f.values[j]);
        assert OptionLabel(t) == f.values[j];
        assert OptionLabel(s) == OptionLabel(t);
      }
    }
  }

  /** Every option label is the option label of the month it reads as. */
  lemma OptionLabelRoundTrip(l: string)
    requires IsOptionLabel(l)
    ensures ParseLabel(l).Some? && ParseLabel(l).value.year < 100 && OptionLabel(ParseLabel(l).value) == l
  {
    var m := MonthOf(l[..3]).value;
    assert l[4..] == [l[4], l[5]];
    DigitsValuePair(l[4], l[5]);
    var yy := DigitsValue(l[4..]);
    var s := Stamp(yy, m);
    assert ParseLabel(l) == Some(s);
    TwoDigitsRoundTrip(l[4], l[5]);
    assert yy % 100 == yy;
    assert OptionLabel(s) == Abbrev(m) + "/" + l[4..];
    assert l == l[..3] + "/" + l[4..];
  }

  /** Two digits read as a number below 100 and zero-filled back to width two are the same digits. */
  lemma TwoDigitsRoundTrip(a: char, b: char)
    requires IsDigit(a) && IsDigit(b)
    ensures DigitsValue([a, b]) < 100 && ZFill(NatStr(DigitsValue([a, b])), 2) == [a, b]
  {
    DigitsValuePair(a, b);
    var n := DigitValue(a) * 10 + DigitValue(b);
    if n < 10 {
      assert NatStr(n) == [DigitChar(n)];
      assert DigitValue(a) == 0 && DigitChar(0) == a;
    } else {
      assert NatStr(n / 10) == [DigitChar(n / 10)];
      assert NatStr(n) == [DigitChar(n / 10), DigitChar(n % 10)];
    }
  }
}
