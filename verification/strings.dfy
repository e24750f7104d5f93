/**
 * The parts of Python's `str` API that the transcript layer relies on, over
 * `seq<char>`: `strip()`, `split()`, `" ".join(...)`, `split(c)`, `in`,
 * `replace(pat, rep)` and `rstrip(c)`.
 *
 * Whitespace is the ASCII set; Python's Unicode whitespace table is not modelled.
 */
module Strings {

  /** Six of the ASCII characters Python's `str.isspace()` accepts; the separators \x1c–\x1f are left out. */
  const Whitespace: set<char> := {' ', '\t', '\n', '\r', '\U{000B}', '\U{000C}'}

  predicate IsSpace(c: char) {
    c in Whitespace
  }

  predicate AllSpace(s: string) {
    forall i :: 0 <= i < |s| ==> IsSpace(s[i])
  }

  predicate NoSpace(s: string) {
    forall i :: 0 <= i < |s| ==> !IsSpace(s[i])
  }

  /** One item of `str.split()`: a non-empty run without whitespace. */
  predicate IsWord(s: string) {
    |s| > 0 && NoSpace(s)
  }

  /** No whitespace at either end: the shape of every `str.strip()` result. */
  predicate IsStripped(s: string) {
    |s| == 0 || (!IsSpace(s[0]) && !IsSpace(s[|s| - 1]))
  }

  // ---------------------------------------------------------------------------
  // strip()

  /** `str.lstrip()`: the suffix left after dropping leading whitespace. */
  function TrimStart(s: string): (r: string)
    ensures |r| <= |s| && r == s[|s| - |r|..]
    ensures forall k :: 0 <= k < |s| - |r| ==> IsSpace(s[k])
    ensures |r| == 0 || !IsSpace(r[0])
  {
    if |s| > 0 && IsSpace(s[0]) then TrimStart(s[1..]) else s
  }

  /** `str.rstrip()`: the prefix left after dropping trailing whitespace. */
  function TrimEnd(s: string): (r: string)
    ensures |r| <= |s| && r == s[..|r|]
    ensures forall k :: |r| <= k < |s| ==> IsSpace(s[k])
    ensures |r| == 0 || !IsSpace(r[|r| - 1])
  {
    if |s| > 0 && IsSpace(s[|s| - 1]) then TrimEnd(s[..|s| - 1]) else s
  }

  /** `r` sits at position `i` of `s` with only whitespace before and after it. */
  predicate TrimmedAt(s: string, r: string, i: int) {
    && 0 <= i <= |s| - |r|
    && s[i..i + |r|] == r
    && (forall k :: 0 <= k < i ==> IsSpace(s[k]))
    && (forall k :: i + |r| <= k < |s| ==> IsSpace(s[k]))
  }

  /** `r` is `s` with whitespace, and only whitespace, cut from its two ends. */
  ghost predicate TrimmedFrom(s: string, r: string) {
    exists i :: TrimmedAt(s, r, i)
  }

  /** Python's `str.strip()` with no argument. */
  function Strip(s: string): (r: string)
    ensures IsStripped(r)
    ensures TrimmedFrom(s, r)
    ensures |r| == 0 <==> AllSpace(s)
  {
    StripFacts(s);
    TrimEnd(TrimStart(s))
  }

  lemma StripFacts(s: string)
    ensures TrimmedAt(s, TrimEnd(TrimStart(s)), |s| - |TrimStart(s)|)
    ensures |TrimEnd(TrimStart(s))| == 0 <==> AllSpace(s)
    ensures IsStripped(TrimEnd(TrimStart(s)))
  {
    var t := TrimStart(s);
    var r := TrimEnd(t);
    var i := |s| - |t|;
    StrippedPrefix(t, r);
    TrimmedAtOf(s, t, r, i);
    StripBlank(s, r, i);
  }

  /** A prefix of a string that starts with no whitespace, itself ending in none, is stripped. */
  lemma StrippedPrefix(t: string, r: string)
    requires |r| <= |t| && r == t[..|r|]
    requires (|t| == 0 || !IsSpace(t[0])) && (|r| == 0 || !IsSpace(r[|r| - 1]))
    ensures IsStripped(r)
  {
    if |r| > 0 {
      assert r[0] == t[0];
    }
  }

  /** Cutting whitespace from the front (`t` is what is left) and then from the back (`r`). */
  lemma TrimmedAtOf(s: string, t: string, r: string, i: nat)
    requires i <= |s| && t == s[i..] && |r| <= |t| && r == t[..|r|]
    requires forall k :: 0 <= k < i ==> IsSpace(s[k])
    requires forall k :: |r| <= k < |t| ==> IsSpace(t[k])
    ensures TrimmedAt(s, r, i)
  {
    assert s[i..i + |r|] == r;
    forall k | i + |r| <= k < |s|
      ensures IsSpace(s[k])
    {
      assert s[k] == t[k - i];
    }
  }

  lemma StripBlank(s: string, r: string, i: int)
    requires TrimmedAt(s, r, i) && IsStripped(r)
    ensures |r| == 0 <==> AllSpace(s)
  {
    if |r| == 0 {
      forall k | 0 <= k < |s| ensures IsSpace(s[k]) {
        if k >= i {
          assert i + |r| <= k;
        }
      }
    } else {
      assert s[i] == r[0];
    }
  }

  lemma TrimStartUnique(s: string, i: nat)
    requires i <= |s| && (forall k :: 0 <= k < i ==> IsSpace(s[k])) && (i == |s| || !IsSpace(s[i]))
    ensures TrimStart(s) == s[i..]
  {
    SuffixStartUnique(s, TrimStart(s), i);
  }

  /** A suffix after leading whitespace that starts with no whitespace starts at the first non-space. */
  lemma SuffixStartUnique(s: string, t: string, i: nat)
    requires |t| <= |s| && t == s[|s| - |t|..]
    requires (forall k :: 0 <= k < |s| - |t| ==> IsSpace(s[k])) && (|t| == 0 || !IsSpace(t[0]))
    requires i <= |s| && (forall k :: 0 <= k < i ==> IsSpace(s[k])) && (i == |s| || !IsSpace(s[i]))
    ensures t == s[i..]
  {
    assert |t| > 0 ==> t[0] == s[|s| - |t|];
  }

  lemma TrimEndUnique(s: string, j: nat)
    requires j <= |s| && (forall k :: j <= k < |s| ==> IsSpace(s[k])) && (j == 0 || !IsSpace(s[j - 1]))
    ensures TrimEnd(s) == s[..j]
  {
    PrefixEndUnique(s, TrimEnd(s), j);
  }

  /** A prefix before trailing whitespace that ends in no whitespace ends at the last non-space. */
  lemma PrefixEndUnique(s: string, t: string, j: nat)
    requires |t| <= |s| && t == s[..|t|]
    requires (forall k :: |t| <= k < |s| ==> IsSpace(s[k])) && (|t| == 0 || !IsSpace(t[|t| - 1]))
    requires j <= |s| && (forall k :: j <= k < |s| ==> IsSpace(s[k])) && (j == 0 || !IsSpace(s[j - 1]))
    ensures t == s[..j]
  {
    assert |t| > 0 ==> t[|t| - 1] == s[|t| - 1];
  }

  /** A stripped string cut from `s` by whitespace alone is what `strip()` returns. */
  lemma StripUnique(s: string, r: string)
    requires IsStripped(r) && TrimmedFrom(s, r)
    ensures Strip(s) == r
  {
    var i :| TrimmedAt(s, r, i);
    StripBlank(s, r, i);
    if |r| > 0 {
      StripUniqueAt(s, r, i);
    }
  }

  lemma StripUniqueAt(s: string, r: string, i: int)
    requires TrimmedAt(s, r, i) && IsStripped(r) && |r| > 0
    ensures TrimEnd(TrimStart(s)) == r
  {
    assert s[i] == r[0];
    TrimStartUnique(s, i);
    var t := s[i..];
    assert t[..|r|] == r;
    assert forall k :: |r| <= k < |t| ==> t[k] == s[i + k];
    TrimEndOfPrefix(t, r);
  }

  lemma TrimEndOfPrefix(t: string, r: string)
    requires 0 < |r| <= |t| && r == t[..|r|] && !IsSpace(r[|r| - 1])
    requires forall k :: |r| <= k < |t| ==> IsSpace(t[k])
    ensures TrimEnd(t) == r
  {
    assert t[|r| - 1] == r[|r| - 1];
    TrimEndUnique(t, |r|);
  }

  lemma StripOfStripped(s: string)
    requires IsStripped(s)
    ensures Strip(s) == s
  {
    assert s[0..0 + |s|] == s;
    assert TrimmedAt(s, s, 0);
    StripUnique(s, s);
  }

  /** `strip()` is idempotent. */
  lemma StripIdempotent(s: string)
    ensures Strip(Strip(s)) == Strip(s)
  {
    StripOfStripped(Strip(s));
  }

  // ---------------------------------------------------------------------------
  // split() and " ".join(...)

  /** Length of the longest whitespace-free prefix of `s`. */
  function WordLen(s: string): (k: nat)
    ensures k <= |s| && (forall j :: 0 <= j < k ==> !IsSpace(s[j])) && (k == |s| || IsSpace(s[k]))
  {
    if |s| == 0 || IsSpace(s[0]) then 0 else 1 + WordLen(s[1..])
  }

  lemma WordLenUnique(s: string, k: nat)
    requires k <= |s| && (forall j :: 0 <= j < k ==> !IsSpace(s[j])) && (k == |s| || IsSpace(s[k]))
    ensures WordLen(s) == k
  {
  }

  /** A list of `split()` items. */
  predicate AllWords(ws: seq<string>) {
    forall k :: 0 <= k < |ws| ==> IsWord(ws[k])
  }

  lemma AllWordsCons(w: string, ws: seq<string>)
    requires IsWord(w) && AllWords(ws)
    ensures AllWords([w] + ws)
  {
    forall k | 1 <= k < |ws| + 1
      ensures ([w] + ws)[k] == ws[k - 1]
    {
    }
  }

  /** Python's `str.split()` with no argument: the maximal whitespace-free runs, in order. */
  function Words(s: string): (ws: seq<string>)
    ensures AllWords(ws)
    decreases |s|
  {
    if |s| == 0 then []
    else if IsSpace(s[0]) then Words(s[1..])
    else
      var k := WordLen(s);
      [s[..k]] + Words(s[k..])
  }

  /** Python's `sep.join(ps)`. */
  function Join(sep: string, ps: seq<string>): string {
    if |ps| == 0 then ""
    else if |ps| == 1 then ps[0]
    else ps[0] + sep + Join(sep, ps[1..])
  }

  /** The words of each piece, one piece after another. */
  function FlatWords(ps: seq<string>): seq<string> {
    if |ps| == 0 then [] else Words(ps[0]) + FlatWords(ps[1..])
  }

  lemma {:induction false} WordsOfBlank(s: string)
    ensures Words(s) == [] <==> AllSpace(s)
    decreases |s|
  {
    if |s| > 0 {
      WordsOfBlank(s[1..]);
      if IsSpace(s[0]) {
        assert AllSpace(s) <==> AllSpace(s[1..]) by {
          if AllSpace(s[1..]) {
            forall k | 0 <= k < |s| ensures IsSpace(s[k]) {
              if k > 0 { assert s[k] == s[1..][k - 1]; }
            }
          }
        }
      }
    }
  }

  lemma WordsOfWord(w: string)
    requires IsWord(w)
    ensures Words(w) == [w]
  {
    assert w[..|w|] == w;
    WordLenUnique(w, |w|);
    assert w[|w|..] == [];
  }

  lemma WordLenBeforeSpace(a: string, t: string)
    requires |t| > 0 && IsSpace(t[0])
    ensures WordLen(a + t) == WordLen(a)
  {
    var k := WordLen(a);
    var s := a + t;
    assert s[..k] == a[..k];
    if k < |a| { assert s[k] == a[k]; } else { assert s[k] == t[0]; }
    WordLenUnique(s, k);
  }

  /** Splitting `a + " " + b` splits `a` and `b` separately. */
  lemma {:induction false} WordsAroundSpace(a: string, b: string)
    ensures Words(a + " " + b) == Words(a) + Words(b)
    decreases |a|
  {
    var s := a + " " + b;
    if |a| == 0 {
      assert s[1..] == b;
    } else if IsSpace(a[0]) {
      assert s[1..] == a[1..] + " " + b;
      WordsAroundSpace(a[1..], b);
    } else {
      WordLenBeforeSpace(a, " " + b);
      assert s == a + (" " + b);
      var k := WordLen(a);
      assert k > 0;
      assert s[..k] == a[..k];
      assert s[k..] == a[k..] + " " + b;
      WordsAroundSpace(a[k..], b);
    }
  }

  /** The words of a space-joined list are the words of its pieces. */
  lemma {:induction false} WordsOfJoin(ps: seq<string>)
    ensures Words(Join(" ", ps)) == FlatWords(ps)
  {
    if |ps| == 1 {
      assert FlatWords(ps) == Words(ps[0]) + FlatWords(ps[1..]);
    } else if |ps| > 1 {
      WordsAroundSpace(ps[0], Join(" ", ps[1..]));
      WordsOfJoin(ps[1..]);
    }
  }

  lemma {:induction false} FlatWordsOfWords(ws: seq<string>)
    requires AllWords(ws)
    ensures FlatWords(ws) == ws
  {
    if |ws| > 0 {
      WordsOfWord(ws[0]);
      FlatWordsOfWords(ws[1..]);
    }
  }

  /** Round trip: splitting words joined by single spaces gives the words back. */
  lemma JoinThenSplit(ws: seq<string>)
    requires AllWords(ws)
    ensures Words(Join(" ", ws)) == ws
  {
    WordsOfJoin(ws);
    FlatWordsOfWords(ws);
  }

  lemma {:induction false} WordsAfterBlank(sp: string, s: string)
    requires AllSpace(sp)
    ensures Words(sp + s) == Words(s)
    decreases |sp|
  {
    if |sp| > 0 {
      assert (sp + s)[0] == sp[0];
      assert (sp + s)[1..] == sp[1..] + s;
      WordsAfterBlank(sp[1..], s);
    } else {
      assert sp + s == s;
    }
  }

  lemma {:induction false} WordsBeforeBlank(s: string, sp: string)
    requires AllSpace(sp)
    ensures Words(s + sp) == Words(s)
    decreases |s|
  {
    if |s| == 0 {
      assert s + sp == sp;
      WordsAfterBlank(sp, []);
      assert sp + [] == sp;
    } else if IsSpace(s[0]) {
      assert (s + sp)[1..] == s[1..] + sp;
      WordsBeforeBlank(s[1..], sp);
    } else {
      var k := WordLen(s);
      var t := s + sp;
      if k < |s| {
        assert t == s[..k] + (s[k..] + sp);
        assert t[..k] == s[..k];
        WordLenUnique(t, k);
        assert t[k..] == s[k..] + sp;
        WordsBeforeBlank(s[k..], sp);
      } else {
        assert s[..k] == s;
        if |sp| > 0 {
          WordLenBeforeSpace(s, sp);
        } else {
          assert t == s;
        }
        assert t[..k] == s;
        assert t[k..] == sp;
        WordsAfterBlank(sp, []);
        assert sp + [] == sp;
        assert s[k..] == [];
      }
    }
  }

  /** A string trimmed at `i` is blank, then the trimmed part, then blank. */
  lemma TrimmedAtSplit(s: string, r: string, i: int)
    requires TrimmedAt(s, r, i)
    ensures s == s[..i] + r + s[i + |r|..]
    ensures AllSpace(s[..i]) && AllSpace(s[i + |r|..])
  {
    assert s == s[..i] + s[i..i + |r|] + s[i + |r|..];
    var post := s[i + |r|..];
    forall k | 0 <= k < |post| ensures IsSpace(post[k]) {
      assert post[k] == s[i + |r| + k];
    }
  }

  lemma WordsOfTrimmed(s: string, r: string, i: int)
    requires TrimmedAt(s, r, i)
    ensures Words(s) == Words(r)
  {
    TrimmedAtSplit(s, r, i);
    var pre, post := s[..i], s[i + |r|..];
    assert s == pre + (r + post);
    WordsAfterBlank(pre, r + post);
    WordsBeforeBlank(r, post);
  }

  /** `strip()` never changes the words of a string. */
  lemma WordsOfStrip(s: string)
    ensures Words(Strip(s)) == Words(s)
  {
    var r := Strip(s);
    assert TrimmedFrom(s, r);
    var i :| TrimmedAt(s, r, i);
    WordsOfTrimmed(s, r, i);
  }

  /** Every piece is non-empty and has no whitespace at either end. */
  predicate StrippedPieces(ps: seq<string>) {
    forall k :: 0 <= k < |ps| ==> |ps[k]| > 0 && IsStripped(ps[k])
  }

  lemma StrippedPiecesCons(p: string, rest: seq<string>)
    requires |p| > 0 && IsStripped(p) && StrippedPieces(rest)
    ensures StrippedPieces([p] + rest)
  {
    forall k | 1 <= k < |rest| + 1
      ensures ([p] + rest)[k] == rest[k - 1]
    {
    }
  }

  /** Joining non-empty stripped pieces with single spaces gives a stripped string. */
  lemma {:induction false} JoinIsStripped(ps: seq<string>)
    requires StrippedPieces(ps)
    ensures IsStripped(Join(" ", ps))
    ensures |ps| > 0 ==> |Join(" ", ps)| > 0 && Join(" ", ps)[0] == ps[0][0]
  {
    if |ps| > 1 {
      JoinIsStripped(ps[1..]);
      var rest := Join(" ", ps[1..]);
      assert (ps[0] + " " + rest)[0] == ps[0][0];
    }
  }

  // ---------------------------------------------------------------------------
  // split(c) for a one-character separator

  /** Python's `s.split(c)`: the pieces between the occurrences of `c`; there is always one more piece than separators. */
  function SplitOn(s: string, c: char): (parts: seq<string>)
    ensures |parts| >= 1
    ensures forall k :: 0 <= k < |parts| ==> c !in parts[k]
    ensures Join([c], parts) == s
  {
    if |s| == 0 then [""]
    else
      var rest := SplitOn(s[1..], c);
      if s[0] == c then
        var parts := [""] + rest;
        assert parts[1..] == rest;
        parts
      else
        var parts := [[s[0]] + rest[0]] + rest[1..];
        assert parts[1..] == rest[1..];
        parts
  }

  lemma {:induction false} SplitOnPiece(w: string, c: char)
    requires c !in w
    ensures SplitOn(w, c) == [w]
    decreases |w|
  {
    if |w| > 0 {
      SplitOnPiece(w[1..], c);
      assert [w[0]] + w[1..] == w;
    }
  }

  lemma {:induction false} SplitOnAfterPiece(w: string, c: char, rest: string)
    requires c !in w
    ensures SplitOn(w + [c] + rest, c) == [w] + SplitOn(rest, c)
    decreases |w|
  {
    var s := w + [c] + rest;
    if |w| == 0 {
      assert s[1..] == rest;
    } else {
      assert s[1..] == w[1..] + [c] + rest;
      SplitOnAfterPiece(w[1..], c, rest);
      assert [w[0]] + w[1..] == w;
    }
  }

  /** Round trip: splitting pieces joined by `c` gives the pieces back when no piece contains `c`. */
  lemma {:induction false} JoinThenSplitOn(parts: seq<string>, c: char)
    requires |parts| >= 1
    requires forall k :: 0 <= k < |parts| ==> c !in parts[k]
    ensures SplitOn(Join([c], parts), c) == parts
  {
    if |parts| == 1 {
      SplitOnPiece(parts[0], c);
    } else {
      JoinThenSplitOn(parts[1..], c);
      SplitOnAfterPiece(parts[0], c, Join([c], parts[1..]));
      assert [parts[0]] + parts[1..] == parts;
    }
  }

  lemma {:induction false} JoinAppend(ps: seq<string>, qs: seq<string>, c: char)
    requires |ps| > 0 && |qs| > 0
    ensures Join([c], ps + qs) == Join([c], ps) + [c] + Join([c], qs)
    decreases |ps|
  {
    var all := ps + qs;
    if |ps| == 1 {
      assert all[1..] == qs;
    } else {
      assert all[1..] == ps[1..] + qs;
      JoinAppend(ps[1..], qs, c);
    }
  }

  /** Splitting at one separator splits the two sides independently. */
  lemma SplitOnConcat(x: string, c: char, y: string)
    ensures SplitOn(x + [c] + y, c) == SplitOn(x, c) + SplitOn(y, c)
  {
    var ps, qs := SplitOn(x, c), SplitOn(y, c);
    JoinAppend(ps, qs, c);
    JoinThenSplitOn(ps + qs, c);
  }

  // ---------------------------------------------------------------------------
  // substring test and replace()

  predicate OccursAt(s: string, p: string, i: int) {
    0 <= i && i + |p| <= |s| && s[i..i + |p|] == p
  }

  /** Python's `p in s` for strings. */
  predicate Contains(s: string, p: string) {
    exists i :: 0 <= i <= |s| && OccursAt(s, p, i)
  }

  predicate StartsWith(s: string, p: string) {
    |p| <= |s| && s[..|p|] == p
  }

  /** An occurrence in the right part of a concatenation is an occurrence in that part. */
  lemma OccursInRight(a: string, b: string, p: string, i: int)
    ensures OccursAt(a + b, p, i) && i >= |a| ==> OccursAt(b, p, i - |a|)
  {
    if OccursAt(a + b, p, i) && i >= |a| {
      assert (a + b)[i..i + |p|] == b[i - |a|..i - |a| + |p|];
    }
  }

  /** An occurrence inside a slice is an occurrence in the whole string. */
  lemma OccursInSlice(s: string, p: string, m: nat, n: nat, i: int)
    requires m <= n <= |s|
    ensures OccursAt(s[m..n], p, i) ==> OccursAt(s, p, m + i)
  {
    if OccursAt(s[m..n], p, i) {
      forall k | 0 <= k < |p| ensures s[m + i + k] == p[k] {
        assert s[m + i + k] == s[m..n][i + k] == s[m..n][i..i + |p|][k];
      }
      assert s[m + i..m + i + |p|] == p;
    }
  }

  lemma OccursInMiddle(a: string, b: string, c: string)
    ensures OccursAt(a + (b + c), b, |a|)
  {
    assert (a + (b + c))[|a|..|a| + |b|] == b;
  }

  /** What a string contains, every extension of it contains. */
  lemma ContainsInPrefix(a: string, b: string, p: string)
    requires Contains(a, p)
    ensures Contains(a + b, p)
  {
    var i :| 0 <= i <= |a| && OccursAt(a, p, i);
    assert (a + b)[0..|a|] == a;
    OccursInSlice(a + b, p, 0, |a|, i);
  }

  /** Blank text contains no pattern that starts with a visible character. */
  lemma BlankContainsNoWord(s: string, p: string)
    requires AllSpace(s) && |p| > 0 && !IsSpace(p[0])
    ensures !Contains(s, p)
  {
    forall i | 0 <= i <= |s| ensures !OccursAt(s, p, i) {
      OccursAtChars(s, p, i);
    }
  }

  lemma NotContainsSlice(s: string, p: string, m: nat, n: nat)
    requires m <= n <= |s| && !Contains(s, p)
    ensures !Contains(s[m..n], p)
  {
    forall i | 0 <= i <= n - m ensures !OccursAt(s[m..n], p, i) {
      OccursInSlice(s, p, m, n, i);
    }
  }

  lemma NotContainsSuffix(s: string, p: string, m: nat)
    requires m <= |s| && !Contains(s, p)
    ensures !Contains(s[m..], p)
  {
    assert s[m..] == s[m..|s|];
    NotContainsSlice(s, p, m, |s|);
  }

  lemma StartsWithCons(t: string, w: string)
    requires |t| > 0 && |w| > 0
    ensures StartsWith(t, w) <==> t[0] == w[0] && StartsWith(t[1..], w[1..])
  {
    if t[0] == w[0] && StartsWith(t[1..], w[1..]) {
      assert t[..|w|] == [t[0]] + t[1..][..|w| - 1];
      assert w == [w[0]] + w[1..];
    }
    if StartsWith(t, w) {
      assert t[1..][..|w| - 1] == t[..|w|][1..];
    }
  }

  lemma OccursAtChars(s: string, p: string, i: int)
    ensures OccursAt(s, p, i) ==> forall k :: 0 <= k < |p| ==> s[i + k] == p[k]
  {
    if OccursAt(s, p, i) {
      forall k | 0 <= k < |p| ensures s[i + k] == p[k] {
        assert s[i..i + |p|][k] == s[i + k];
      }
    }
  }

  lemma OccursAtStart(s: string, p: string)
    ensures OccursAt(s, p, 0) <==> StartsWith(s, p)
  {
    if |p| <= |s| {
      assert s[0..|p|] == s[..|p|];
    }
  }

  /**
   * Python's `s.replace(pat, rep)`: scanning left to right, every occurrence
   * of `pat` that does not overlap an earlier one becomes `rep`.
   */
  function Replace(s: string, pat: string, rep: string): (r: string)
    requires |pat| > 0
    ensures !Contains(s, pat) ==> r == s
    ensures |pat| == |rep| ==> |r| == |s|
    decreases |s|
  {
    if |s| < |pat| then s
    else if s[..|pat|] == pat then
      assert OccursAt(s, pat, 0);
      rep + Replace(s[|pat|..], pat, rep)
    else
      var rest := Replace(s[1..], pat, rep);
      assert !Contains(s, pat) ==> !Contains(s[1..], pat) by {
        if !Contains(s, pat) { NotContainsSuffix(s, pat, 1); }
      }
      assert [s[0]] + s[1..] == s;
      [s[0]] + rest
  }

  /** `a` and `b` differ at some index below both lengths, so neither extends the other. */
  predicate Mismatch(a: string, b: string) {
    |a| > 0 && |b| > 0 && (a[0] != b[0] || Mismatch(a[1..], b[1..]))
  }

  /** No occurrence of `p` can start inside `rep`, whatever follows it. */
  predicate NoStartIn(rep: string, p: string) {
    forall i :: 0 <= i < |rep| ==> Mismatch(rep[i..], p)
  }

  /** The usual way to see `NoStartIn`: `p` begins with a character that only the head of `rep` can show, and `rep` itself is no prefix of `p`. */
  lemma NoStartInOfHead(rep: string, p: string)
    requires |p| > 0 && Mismatch(rep, p)
    requires forall i :: 1 <= i < |rep| ==> rep[i] != p[0]
    ensures NoStartIn(rep, p)
  {
    forall i | 0 <= i < |rep| ensures Mismatch(rep[i..], p) {
      if i > 0 {
        assert rep[i..][0] == rep[i];
      }
    }
  }

  /** A string that mismatches `b` starts no string with `b`, whatever follows it. */
  lemma {:induction false} MismatchNotPrefix(a: string, rest: string, b: string)
    requires Mismatch(a, b)
    ensures !StartsWith(a + rest, b)
    decreases |a|
  {
    StartsWithCons(a + rest, b);
    if a[0] == b[0] {
      MismatchNotPrefix(a[1..], rest, b[1..]);
      assert (a + rest)[1..] == a[1..] + rest;
    }
  }

  /** Under `NoStartIn(rep, p)`, no occurrence of `p` starts inside `rep + rest` before the end of `rep`. */
  lemma NoOccurrenceInRep(rep: string, rest: string, p: string, i: int)
    requires NoStartIn(rep, p) && 0 <= i < |rep|
    ensures !OccursAt(rep + rest, p, i)
  {
    var r := rep + rest;
    MismatchNotPrefix(rep[i..], rest, p);
    assert r[i..] == rep[i..] + rest;
    OccursAtStart(r[i..], p);
    ShiftedOccurrence(r, p, i, 0);
    OccursInRight(r[..i], r[i..], p, i);
    assert r[..i] + r[i..] == r;
  }

  /** The conditions under which `replace(pat, rep)` can never leave or create an occurrence of `pat`. */
  predicate ReplacementIsInert(pat: string, rep: string) {
    && |pat| > 0
    && |rep| > 0
    && NoStartIn(rep, pat)
    && (forall k :: 1 <= k < |pat| ==> pat[k] != rep[0])
  }

  /** If the output of `replace` starts with `w`, and `w` never shows the first character of `rep`, the input started with `w`. */
  lemma {:induction false} ReplaceKeepsHead(t: string, pat: string, rep: string, w: string)
    requires |pat| > 0 && |rep| > 0
    requires forall k :: 0 <= k < |w| ==> w[k] != rep[0]
    ensures StartsWith(Replace(t, pat, rep), w) ==> StartsWith(t, w)
    decreases |t|
  {
    if |w| > 0 && |t| >= |pat| {
      var r := Replace(t, pat, rep);
      StartsWithCons(r, w);
      if t[..|pat|] == pat {
        assert r[0] == rep[0];
      } else {
        var rest := Replace(t[1..], pat, rep);
        assert r[0] == t[0] && r[1..] == rest;
        ReplaceKeepsHead(t[1..], pat, rep, w[1..]);
        StartsWithCons(t, w);
      }
    }
  }

  /** A character that did not start a match cannot start an occurrence of `pat` in the output. */
  lemma NoMatchNoHead(s: string, pat: string, rep: string)
    requires ReplacementIsInert(pat, rep)
    requires |s| >= |pat| && s[..|pat|] != pat
    ensures !OccursAt([s[0]] + Replace(s[1..], pat, rep), pat, 0)
  {
    var rest := Replace(s[1..], pat, rep);
    var r := [s[0]] + rest;
    ReplaceKeepsHead(s[1..], pat, rep, pat[1..]);
    OccursAtStart(r, pat);
    StartsWithCons(r, pat);
    assert r[0] == s[0] && r[1..] == rest;
    StartsWithCons(s, pat);
  }

  /** Under `ReplacementIsInert`, no occurrence of `pat` survives `replace`. */
  lemma {:induction false} ReplaceRemovesAll(s: string, pat: string, rep: string)
    requires ReplacementIsInert(pat, rep)
    ensures !Contains(Replace(s, pat, rep), pat)
    decreases |s|
  {
    var r := Replace(s, pat, rep);
    if |s| < |pat| {
      assert r == s;
    } else if s[..|pat|] == pat {
      var rest := Replace(s[|pat|..], pat, rep);
      ReplaceRemovesAll(s[|pat|..], pat, rep);
      assert r == rep + rest;
      forall i | 0 <= i <= |r| ensures !OccursAt(r, pat, i) {
        if i < |rep| {
          NoOccurrenceInRep(rep, rest, pat, i);
        } else {
          OccursInRight(rep, rest, pat, i);
        }
      }
    } else {
      var rest := Replace(s[1..], pat, rep);
      ReplaceRemovesAll(s[1..], pat, rep);
      assert r == [s[0]] + rest;
      forall i | 0 <= i <= |r| ensures !OccursAt(r, pat, i) {
        if i == 0 {
          NoMatchNoHead(s, pat, rep);
        } else {
          OccursInRight([s[0]], rest, pat, i);
        }
      }
    }
  }

  /** `replace` creates no occurrence of `p` when no character of `p` can meet `rep` in the output. */
  lemma {:induction false} ReplaceKeepsAbsent(s: string, pat: string, rep: string, p: string)
    requires |pat| > 0 && |rep| > 0 && |p| > 0
    requires NoStartIn(rep, p)
    requires forall k :: 1 <= k < |p| ==> p[k] != rep[0]
    requires !Contains(s, p)
    ensures !Contains(Replace(s, pat, rep), p)
    decreases |s|
  {
    var r := Replace(s, pat, rep);
    if |s| < |pat| {
      assert r == s;
    } else if s[..|pat|] == pat {
      var rest := Replace(s[|pat|..], pat, rep);
      NotContainsSuffix(s, p, |pat|);
      ReplaceKeepsAbsent(s[|pat|..], pat, rep, p);
      assert r == rep + rest;
      forall i | 0 <= i <= |r| ensures !OccursAt(r, p, i) {
        if i < |rep| {
          NoOccurrenceInRep(rep, rest, p, i);
        } else {
          OccursInRight(rep, rest, p, i);
        }
      }
    } else {
      var rest := Replace(s[1..], pat, rep);
      NotContainsSuffix(s, p, 1);
      ReplaceKeepsAbsent(s[1..], pat, rep, p);
      assert r == [s[0]] + rest;
      forall i | 0 <= i <= |r| ensures !OccursAt(r, p, i) {
        if i == 0 {
          ReplaceKeepsHead(s[1..], pat, rep, p[1..]);
          OccursAtStart(r, p);
          StartsWithCons(r, p);
          assert r[0] == s[0] && r[1..] == rest;
          StartsWithCons(s, p);
          OccursAtStart(s, p);
        } else {
          OccursInRight([s[0]], rest, p, i);
        }
      }
    }
  }

  /** With a same-length replacement, every character that changes lies inside an occurrence of `pat` in the input and becomes the matching character of `rep`. */
  lemma {:induction false} ReplaceChangesOnlyMatches(s: string, pat: string, rep: string, q: nat)
    requires |pat| > 0 && |pat| == |rep|
    requires q < |s| && Replace(s, pat, rep)[q] != s[q]
    ensures exists m :: m <= q < m + |pat| && OccursAt(s, pat, m) && Replace(s, pat, rep)[q] == rep[q - m]
    decreases |s|
  {
    var d := ReplaceStep(s, pat, rep, q);
    if d == 0 {
      assert q - 0 == q;
    } else {
      ReplaceChangesOnlyMatches(s[d..], pat, rep, q - d);
      LiftChange(s, pat, rep, Replace(s, pat, rep), Replace(s[d..], pat, rep), q, d);
    }
  }

  /**
   * One step of `replace` seen from output position `q`: either `q` lies in a match
   * at the front (`d == 0`), or the output at `q` is the output of the suffix `s[d..]`
   * at `q - d`, where `d` is the length of the match at the front or 1.
   */
  lemma ReplaceStep(s: string, pat: string, rep: string, q: nat) returns (d: nat)
    requires |pat| > 0 && |pat| == |rep|
    requires q < |s| && Replace(s, pat, rep)[q] != s[q]
    ensures d == 0 ==> OccursAt(s, pat, 0) && q < |pat| && Replace(s, pat, rep)[q] == rep[q]
    ensures d <= q && (d > 0 ==> q - d < |s[d..]| && q < |Replace(s, pat, rep)| && q - d < |Replace(s[d..], pat, rep)|)
    ensures d > 0 ==> Replace(s[d..], pat, rep)[q - d] != s[d..][q - d]
    ensures d > 0 ==> Replace(s, pat, rep)[q] == Replace(s[d..], pat, rep)[q - d]
  {
    if |s| >= |pat| && s[..|pat|] == pat {
      ReplaceAtMatch(s, pat, rep);
      assert s[0..0 + |pat|] == s[..|pat|];
      d := if q < |pat| then 0 else |pat|;
    } else {
      assert |s| >= |pat|;
      ReplaceAtNonMatch(s, pat, rep);
      d := 1;
    }
  }

  lemma ReplaceAtMatch(s: string, pat: string, rep: string)
    requires |pat| > 0 && |s| >= |pat| && s[..|pat|] == pat
    ensures Replace(s, pat, rep) == rep + Replace(s[|pat|..], pat, rep)
  {
  }

  lemma ReplaceAtNonMatch(s: string, pat: string, rep: string)
    requires |pat| > 0 && |s| >= |pat| && s[..|pat|] != pat
    ensures Replace(s, pat, rep) == [s[0]] + Replace(s[1..], pat, rep)
  {
  }

  /** A change found in a suffix `s[d..]` of the input, whose output `rt` lines up with the output `r`, is a change in `s`. */
  lemma LiftChange(s: string, pat: string, rep: string, r: string, rt: string, q: nat, d: nat)
    requires |pat| == |rep| && d <= q < |s| && q < |r| && q - d < |rt| && r[q] == rt[q - d]
    requires exists m :: m <= q - d < m + |pat| && OccursAt(s[d..], pat, m) && rt[q - d] == rep[q - d - m]
    ensures exists m :: m <= q < m + |pat| && OccursAt(s, pat, m) && r[q] == rep[q - m]
  {
    var m :| m <= q - d < m + |pat| && OccursAt(s[d..], pat, m) && rt[q - d] == rep[q - d - m];
    ShiftedOccurrence(s, pat, d, m);
    assert r[q] == rep[q - (m + d)];
  }

  /** With a same-length replacement, each output character is the input's or a character of `rep`. */
  lemma ReplacedCharFromRep(s: string, pat: string, rep: string, q: nat)
    requires |pat| > 0 && |pat| == |rep| && q < |s|
    ensures Replace(s, pat, rep)[q] == s[q] || Replace(s, pat, rep)[q] in rep
  {
    if Replace(s, pat, rep)[q] != s[q] {
      ReplaceChangesOnlyMatches(s, pat, rep, q);
    }
  }

  /**
   * Two same-length replacements in a row, where the second pattern shares no
   * character with the first replacement, change only characters that lie in
   * an occurrence of one of the patterns in the original input, and such a
   * character becomes the matching character of that pattern's replacement.
   */
  lemma TwoReplacesChangeOnlyMatches(s: string, p1: string, r1: string, p2: string, r2: string, q: nat)
    requires |p1| > 0 && |p1| == |r1| && |p2| > 0 && |p2| == |r2|
    requires forall k :: 0 <= k < |p2| ==> p2[k] !in r1
    requires q < |s| && Replace(Replace(s, p1, r1), p2, r2)[q] != s[q]
    ensures || (exists m :: m <= q < m + |p1| && OccursAt(s, p1, m) && Replace(Replace(s, p1, r1), p2, r2)[q] == r1[q - m])
            || (exists m :: m <= q < m + |p2| && OccursAt(s, p2, m) && Replace(Replace(s, p1, r1), p2, r2)[q] == r2[q - m])
  {
    var once := Replace(s, p1, r1);
    var twice := Replace(once, p2, r2);
    if once[q] != s[q] {
      ReplaceChangesOnlyMatches(s, p1, r1, q);
      var m :| m <= q < m + |p1| && OccursAt(s, p1, m) && once[q] == r1[q - m];
      ReplaceKeepsForeignChar(once, p2, r2, r1, q);
    } else {
      ReplaceChangesOnlyMatches(once, p2, r2, q);
      var m :| m <= q < m + |p2| && OccursAt(once, p2, m) && Replace(once, p2, r2)[q] == r2[q - m];
      OccursAtChars(once, p2, m);
      forall p | m <= p < m + |p2| ensures s[p] == once[p] {
        ReplacedCharFromRep(s, p1, r1, p);
        assert once[p] == p2[p - m];
      }
      assert s[m..m + |p2|] == once[m..m + |p2|];
      assert OccursAt(s, p2, m);
    }
  }

  /** A same-length `replace` leaves alone a character of `other` when its pattern has no character of `other`. */
  lemma ReplaceKeepsForeignChar(t: string, pat: string, rep: string, other: string, q: nat)
    requires |pat| > 0 && |pat| == |rep| && q < |t| && t[q] in other
    requires forall k :: 0 <= k < |pat| ==> pat[k] !in other
    ensures Replace(t, pat, rep)[q] == t[q]
  {
    ChangedCharInPattern(t, pat, rep, q);
  }

  /** A character that a same-length `replace` changes was a character of the pattern. */
  lemma ChangedCharInPattern(t: string, pat: string, rep: string, q: nat)
    requires |pat| > 0 && |pat| == |rep| && q < |t|
    ensures Replace(t, pat, rep)[q] != t[q] ==> t[q] in pat
  {
    if Replace(t, pat, rep)[q] != t[q] {
      ReplaceChangesOnlyMatches(t, pat, rep, q);
      var m :| m <= q < m + |pat| && OccursAt(t, pat, m) && Replace(t, pat, rep)[q] == rep[q - m];
      OccursAtChars(t, pat, m);
      assert t[q] == pat[q - m];
    }
  }

  lemma ShiftedOccurrence(s: string, p: string, d: nat, m: int)
    requires d <= |s|
    ensures OccursAt(s[d..], p, m) ==> OccursAt(s, p, m + d)
  {
    if OccursAt(s[d..], p, m) {
      assert s[m + d..m + d + |p|] == s[d..][m..m + |p|];
    }
  }

  /** Stripping creates no occurrence of a pattern: the result is a slice of the input. */
  lemma StripKeepsAbsent(s: string, p: string)
    requires !Contains(s, p)
    ensures !Contains(Strip(s), p)
  {
    var r := Strip(s);
    var i :| TrimmedAt(s, r, i);
    NotContainsTrimmed(s, r, i, p);
  }

  lemma NotContainsTrimmed(s: string, r: string, i: int, p: string)
    requires TrimmedAt(s, r, i) && !Contains(s, p)
    ensures !Contains(r, p)
  {
    NotContainsSlice(s, p, i, i + |r|);
  }

  /** A stripped string behind one space strips back to itself. */
  lemma StripLeadingSpace(j: string)
    requires IsStripped(j)
    ensures Strip(" " + j) == j
  {
    var s := " " + j;
    assert s[1..1 + |j|] == j;
    assert TrimmedAt(s, j, 1);
    StripUnique(s, j);
  }

  /** Replacing one character distributes over concatenation. */
  lemma {:induction false} ReplaceCharConcat(a: string, b: string, c: char, rep: string)
    ensures Replace(a + b, [c], rep) == Replace(a, [c], rep) + Replace(b, [c], rep)
    decreases |a|
  {
    if |a| > 0 {
      var ab := a + b;
      assert ab[1..] == a[1..] + b;
      assert ab[..1] == a[..1];
      ReplaceCharConcat(a[1..], b, c, rep);
      if a[..1] == [c] {
        ReplaceAtMatch(ab, [c], rep);
        ReplaceAtMatch(a, [c], rep);
      } else {
        ReplaceAtNonMatch(ab, [c], rep);
        ReplaceAtNonMatch(a, [c], rep);
        assert ab[0] == a[0];
      }
    } else {
      assert a + b == b;
    }
  }

  /** A string without the character `c` contains no occurrence of `[c]`. */
  lemma CharNotContained(s: string, c: char)
    requires c !in s
    ensures !Contains(s, [c])
  {
    forall i | 0 <= i <= |s| ensures !OccursAt(s, [c], i) {
      OccursAtChars(s, [c], i);
      if i < |s| {
        assert s[i] in s;
      }
    }
  }

  // ---------------------------------------------------------------------------
  // rstrip(c)

  /** Python's `s.rstrip(c)` for one character `c`: every trailing `c` removed. */
  function RStripChar(s: string, c: char): (r: string)
    ensures |r| <= |s| && r == s[..|r|]
    ensures forall k :: |r| <= k < |s| ==> s[k] == c
    ensures |r| == 0 || r[|r| - 1] != c
  {
    if |s| > 0 && s[|s| - 1] == c then RStripChar(s[..|s| - 1], c) else s
  }

  /** `rstrip(c)` is determined by its three postconditions: any `r` meeting them is the result. */
  lemma {:induction false} RStripCharUnique(s: string, c: char, r: string)
    requires |r| <= |s| && r == s[..|r|]
    requires forall k :: |r| <= k < |s| ==> s[k] == c
    requires |r| == 0 || r[|r| - 1] != c
    ensures RStripChar(s, c) == r
    decreases |s|
  {
    if |s| > |r| {
      var t := s[..|s| - 1];
      assert r == t[..|r|];
      RStripCharUnique(t, c, r);
    } else {
      assert s == r;
    }
  }

  /** Stripping twice strips nothing more. */
  lemma RStripCharIdempotent(s: string, c: char)
    ensures RStripChar(RStripChar(s, c), c) == RStripChar(s, c)
  {
    var r := RStripChar(s, c);
    RStripCharUnique(r, c, r);
  }

  /** Appending any number of `c` does not change what `rstrip(c)` returns. */
  lemma RStripCharAppended(s: string, d: string, c: char)
    requires forall k :: 0 <= k < |d| ==> d[k] == c
    ensures RStripChar(s + d, c) == RStripChar(s, c)
  {
    var r := RStripChar(s, c);
    var t := s + d;
    assert r == t[..|r|];
    assert forall k :: |r| <= k < |t| ==> t[k] == c by {
      forall k | |r| <= k < |t|
        ensures t[k] == c
      {
        if k >= |s| {
          assert t[k] == d[k - |s|];
        }
      }
    }
    RStripCharUnique(t, c, r);
  }

  /** `s.split(c)` has more than one part exactly when `c` occurs in `s`. */
  lemma {:induction false} SplitOnSingle(s: string, c: char)
    ensures |SplitOn(s, c)| == 1 <==> c !in s
    decreases |s|
  {
    if c !in s {
      SplitOnPiece(s, c);
    } else if |s| > 0 {
      if s[0] != c {
        assert c in s[1..] by {
          var i :| 0 <= i < |s| && s[i] == c;
          assert s[1..][i - 1] == c;
        }
        SplitOnSingle(s[1..], c);
      }
    }
  }

  // ---------------------------------------------------------------------------
  // what replace() writes

  /** One character of an occurrence. */
  lemma OccursAtChar(s: string, p: string, i: int, k: int)
    ensures OccursAt(s, p, i) && 0 <= k < |p| ==> s[i + k] == p[k]
  {
    if OccursAt(s, p, i) && 0 <= k < |p| {
      assert s[i..i + |p|][k] == s[i + k];
    }
  }

  /**
   * The first occurrence of `pat` becomes `rep`, and the scan goes on right after it.
   * Together with `Replace`'s own `!Contains(s, pat) ==> r == s`, this fixes
   * left-to-right, non-overlapping replacement.
   */
  lemma {:induction false} ReplaceAtFirst(a: string, pat: string, rep: string, b: string)
    requires |pat| > 0 && !Contains(a + pat[..|pat| - 1], pat)
    ensures Replace(a + (pat + b), pat, rep) == a + (rep + Replace(b, pat, rep))
    decreases |a|
  {
    var t := pat + b;
    if |a| == 0 {
      assert t[..|pat|] == pat && t[|pat|..] == b;
      ReplaceAtMatch(t, pat, rep);
      assert a + t == t;
    } else {
      NotFirstMatch(a, pat, b);
      ReplaceAtFirst(a[1..], pat, rep, b);
      var w := a[1..] + (rep + Replace(b, pat, rep));
      ConsConcat(a, t);
      ReplaceCons(a[0], a[1..] + t, pat, rep, w);
      ConsConcat(a, rep + Replace(b, pat, rep));
    }
  }

  /** A first character that starts no match is copied. */
  lemma ReplaceCons(c: char, x: string, pat: string, rep: string, w: string)
    requires |pat| > 0 && |[c] + x| >= |pat| && ([c] + x)[..|pat|] != pat
    requires Replace(x, pat, rep) == w
    ensures Replace([c] + x, pat, rep) == [c] + w
  {
    assert ([c] + x)[1..] == x;
  }

  lemma ConsConcat(a: string, t: string)
    requires |a| > 0
    ensures a + t == [a[0]] + (a[1..] + t)
  {
  }

  /** Where no occurrence starts in `a`, none starts at its first character, nor in the rest of `a`. */
  lemma NotFirstMatch(a: string, pat: string, b: string)
    requires |pat| > 0 && |a| > 0 && !Contains(a + pat[..|pat| - 1], pat)
    ensures |a + (pat + b)| >= |pat| && (a + (pat + b))[..|pat|] != pat
    ensures !Contains(a[1..] + pat[..|pat| - 1], pat)
  {
    var c := a + pat[..|pat| - 1];
    assert (a + (pat + b))[..|pat|] == c[0..|pat|];
    assert !OccursAt(c, pat, 0);
    NotContainsSuffix(c, pat, 1);
    assert c[1..] == a[1..] + pat[..|pat| - 1];
  }

  /** Two occurrences, the second starting no earlier than the first, that cannot overlap are apart. */
  lemma OccurrencesApart(s: string, p1: string, p2: string, i: nat, j: nat)
    requires |p1| > 0 && |p2| > 0 && OccursAt(s, p1, i) && OccursAt(s, p2, j) && i <= j
    requires forall k :: 1 <= k < |p1| ==> p1[k] != p2[0]
    requires i == j ==> p1[0] != p2[0]
    ensures i + |p1| <= j
  {
    OccursAtChar(s, p2, j, 0);
    OccursAtChar(s, p1, i, j - i);
    assert s[j + 0] == s[i + (j - i)];
  }

  /**
   * With a same-length replacement, and a pattern whose first character does not
   * recur in it (so two occurrences never overlap), every occurrence of `pat` is
   * rewritten to `rep` in place.
   */
  lemma {:induction false} ReplaceRewritesOccurrence(s: string, pat: string, rep: string, m: nat)
    requires |pat| > 0 && |pat| == |rep|
    requires forall k :: 1 <= k < |pat| ==> pat[k] != pat[0]
    requires OccursAt(s, pat, m)
    ensures |Replace(s, pat, rep)| == |s| && Replace(s, pat, rep)[m..m + |pat|] == rep
    decreases |s|, 2
  {
    var d, head := ReplaceHead(s, pat, rep);
    RewritesAfterHead(s, pat, rep, m, d, head);
  }

  /** The occurrence at `m` lies in the step's `head` or wholly in what the scan rewrites after it. */
  lemma {:induction false} RewritesAfterHead(s: string, pat: string, rep: string, m: nat, d: nat, head: string)
    requires |pat| > 0 && |pat| == |rep|
    requires forall k :: 1 <= k < |pat| ==> pat[k] != pat[0]
    requires OccursAt(s, pat, m) && 1 <= d <= |s| && |head| == d
    requires s[..|pat|] == pat ==> d == |pat| && head == rep
    requires s[..|pat|] != pat ==> d == 1
    ensures |head + Replace(s[d..], pat, rep)| == |s| && (head + Replace(s[d..], pat, rep))[m..m + |pat|] == rep
    decreases |s|, 1
  {
    if m > 0 {
      NextOccurrence(s, pat, m, d);
      RewritesPastHead(s, pat, rep, m, d, head);
    } else {
      OccursAtStart(s, pat);
      SliceLeft(head, Replace(s[d..], pat, rep), m, |pat|);
    }
  }

  /** An occurrence past the step's `head` is rewritten by the rest of the scan. */
  lemma {:induction false} RewritesPastHead(s: string, pat: string, rep: string, m: nat, d: nat, head: string)
    requires |pat| > 0 && |pat| == |rep|
    requires forall k :: 1 <= k < |pat| ==> pat[k] != pat[0]
    requires OccursAt(s, pat, m) && 1 <= d <= m && |head| == d
    ensures |head + Replace(s[d..], pat, rep)| == |s| && (head + Replace(s[d..], pat, rep))[m..m + |pat|] == rep
    decreases |s|, 0
  {
    var t := s[d..];
    ShiftBack(s, pat, d, m);
    ReplaceRewritesOccurrence(t, pat, rep, m - d);
    var rest := Replace(t, pat, rep);
    assert |rest| == |s| - |head| && rest[m - |head|..m - |head| + |pat|] == rep;
    SliceRight(head, rest, m, |pat|, rep);
  }

  /** A later occurrence of a pattern that cannot overlap itself starts after the first step of the scan. */
  lemma NextOccurrence(s: string, pat: string, m: nat, d: nat)
    requires |pat| > 0 && forall k :: 1 <= k < |pat| ==> pat[k] != pat[0]
    requires OccursAt(s, pat, m) && m > 0
    requires s[..|pat|] == pat ==> d == |pat|
    requires s[..|pat|] != pat ==> d == 1
    ensures d <= m
  {
    if s[..|pat|] == pat {
      assert s[0..|pat|] == s[..|pat|];
      OccurrencesApart(s, pat, pat, 0, m);
    }
  }

  /** A slice of `x + y` that starts past `x` is the matching slice of `y`. */
  lemma SliceRight(x: string, y: string, i: nat, k: nat, v: string)
    requires |x| <= i && i + k <= |x| + |y| && y[i - |x|..i - |x| + k] == v
    ensures |x + y| >= i + k && (x + y)[i..i + k] == v
  {
  }

  /** The first `|x|` characters of `x + y` are `x`. */
  lemma SliceLeft(x: string, y: string, i: nat, k: nat)
    requires i == 0 && k == |x|
    ensures |x + y| >= i + k && (x + y)[i..i + k] == x
  {
  }

  /** One step of `replace`'s scan over `s`: it writes `head` and goes on after the first `d` characters. */
  lemma ReplaceHead(s: string, pat: string, rep: string) returns (d: nat, head: string)
    requires |pat| > 0 && |pat| == |rep| && |s| >= |pat|
    ensures 1 <= d <= |s| && |head| == d
    ensures Replace(s, pat, rep) == head + Replace(s[d..], pat, rep)
    ensures s[..|pat|] == pat ==> d == |pat| && head == rep
    ensures s[..|pat|] != pat ==> d == 1 && head == [s[0]]
  {
    if s[..|pat|] == pat {
      ReplaceAtMatch(s, pat, rep);
      d, head := |pat|, rep;
    } else {
      ReplaceAtNonMatch(s, pat, rep);
      d, head := 1, [s[0]];
    }
  }

  /** An occurrence at or after `d` is an occurrence in `s[d..]`. */
  lemma ShiftBack(s: string, p: string, d: nat, m: nat)
    requires d <= m && OccursAt(s, p, m)
    ensures OccursAt(s[d..], p, m - d)
  {
    assert s[d..][m - d..m - d + |p|] == s[m..m + |p|];
  }

  /**
   * An occurrence of `p` that no occurrence of `pat` can overlap (`pat` starts with
   * no character of `p`, and `p` starts with no later character of `pat`) survives a
   * same-length `replace(pat, rep)` unchanged.
   */
  lemma ReplaceKeepsOccurrence(s: string, pat: string, rep: string, p: string, m: nat)
    requires |pat| > 0 && |pat| == |rep| && |p| > 0
    requires pat[0] !in p && forall k :: 1 <= k < |pat| ==> pat[k] != p[0]
    requires OccursAt(s, p, m)
    ensures |Replace(s, pat, rep)| == |s| && Replace(s, pat, rep)[m..m + |p|] == p
  {
    var r := Replace(s, pat, rep);
    forall q | m <= q < m + |p| ensures r[q] == s[q] {
      if r[q] != s[q] {
        ReplaceChangesOnlyMatches(s, pat, rep, q);
        var n :| n <= q < n + |pat| && OccursAt(s, pat, n) && r[q] == rep[q - n];
        if n >= m {
          OccurrencesApart(s, p, pat, m, n);
        } else {
          OccurrencesApart(s, pat, p, n, m);
        }
      }
    }
    assert s[m..m + |p|] == p;
  }

  /** No occurrence of `pat` in `x + y` starts in `x` and ends in `y`. */
  predicate NoMatchAcross(x: string, y: string, pat: string) {
    forall i :: |x| - |pat| < i < |x| ==> !OccursAt(x + y, pat, i)
  }

  /** Dropping a prefix of `x` keeps the cut free of crossing occurrences. */
  lemma NoMatchAcrossDrop(x: string, y: string, pat: string, d: nat)
    requires d <= |x| && NoMatchAcross(x, y, pat)
    ensures NoMatchAcross(x[d..], y, pat)
  {
    var s := x + y;
    assert s[d..|s|] == x[d..] + y;
    forall i | |x[d..]| - |pat| < i < |x[d..]| ensures !OccursAt(x[d..] + y, pat, i) {
      OccursInSlice(s, pat, d, |s|, i);
    }
  }

  /** When no occurrence crosses the cut, `replace` works on the two sides separately. */
  lemma {:induction false} ReplaceSplit(x: string, y: string, pat: string, rep: string)
    requires |pat| > 0 && NoMatchAcross(x, y, pat)
    ensures Replace(x + y, pat, rep) == Replace(x, pat, rep) + Replace(y, pat, rep)
    decreases |x|
  {
    if |x| == 0 {
      assert x + y == y;
    } else if |x + y| < |pat| {
      assert Replace(x, pat, rep) == x && Replace(y, pat, rep) == y;
    } else {
      var d, head := SplitHead(x, y, pat, rep);
      NoMatchAcrossDrop(x, y, pat, d);
      ReplaceSplit(x[d..], y, pat, rep);
      Regroup(Replace(x + y, pat, rep), Replace(x, pat, rep), head, Replace(x[d..], pat, rep), Replace(y, pat, rep));
    }
  }

  lemma Regroup(whole: string, left: string, head: string, mid: string, right: string)
    requires whole == head + (mid + right) && left == head + mid
    ensures whole == left + right
  {
  }

  /** The first step of `replace` on `x + y` is the first step on `x`, when no match crosses the cut. */
  lemma SplitHead(x: string, y: string, pat: string, rep: string) returns (d: nat, head: string)
    requires |pat| > 0 && |x| > 0 && |x + y| >= |pat| && NoMatchAcross(x, y, pat)
    ensures 0 < d <= |x|
    ensures Replace(x + y, pat, rep) == head + Replace(x[d..] + y, pat, rep)
    ensures Replace(x, pat, rep) == head + Replace(x[d..], pat, rep)
  {
    var s := x + y;
    if s[..|pat|] == pat {
      assert OccursAt(s, pat, 0) by { assert s[0..|pat|] == s[..|pat|]; }
      assert |x| >= |pat|;
      d, head := |pat|, rep;
      assert x[..|pat|] == s[..|pat|];
      ReplaceAtMatch(s, pat, rep);
      ReplaceAtMatch(x, pat, rep);
    } else {
      d, head := 1, [x[0]];
      ReplaceAtNonMatch(s, pat, rep);
      ShortOrNonMatch(x, y, pat, rep);
    }
    DropConcat(x, y, d);
  }

  lemma DropConcat(x: string, y: string, d: nat)
    requires d <= |x|
    ensures (x + y)[d..] == x[d..] + y
  {
  }

  /** Where `x + y` does not start with `pat`, neither does `x`, so `replace` copies the first character. */
  lemma ShortOrNonMatch(x: string, y: string, pat: string, rep: string)
    requires |pat| > 0 && |x| > 0 && |x + y| >= |pat| && (x + y)[..|pat|] != pat
    ensures Replace(x, pat, rep) == [x[0]] + Replace(x[1..], pat, rep)
  {
    if |x| >= |pat| {
      assert x[..|pat|] == (x + y)[..|pat|];
      ReplaceAtNonMatch(x, pat, rep);
    } else {
      assert x == [x[0]] + x[1..];
    }
  }

  /**
   * `m` guards both of its borders against `p`: an occurrence of `p` that runs into
   * `m` from the left, or out of `m` to the right, disagrees with `m` on its first
   * or second character.
   */
  predicate Isolated(m: string, p: string) {
    && |m| >= 2 && |p| >= 2
    && (forall j :: 1 <= j < |p| ==> p[j] != m[0] || (j + 1 < |p| && p[j + 1] != m[1]))
    && (forall i :: 0 <= i < |m| && |m| - i < |p| ==> m[i] != p[0] || (i + 1 < |m| && m[i + 1] != p[1]))
  }

  lemma IsolatedLeft(a: string, m: string, b: string, p: string)
    requires Isolated(m, p)
    ensures NoMatchAcross(a, m + b, p)
  {
    var s := a + (m + b);
    forall i | |a| - |p| < i < |a| ensures !OccursAt(s, p, i) {
      var j := |a| - i;
      OccursAtChar(s, p, i, j);
      OccursAtChar(s, p, i, j + 1);
      assert p[j] != m[0] || (j + 1 < |p| && p[j + 1] != m[1]);
      assert s[|a|] == m[0] && s[|a| + 1] == m[1];
      assert i + j == |a| && i + (j + 1) == |a| + 1;
    }
  }

  lemma IsolatedRight(m: string, b: string, p: string)
    requires Isolated(m, p)
    ensures NoMatchAcross(m, b, p)
  {
    var s := m + b;
    forall i | |m| - |p| < i < |m| ensures !OccursAt(s, p, i) {
      OccursAtChar(s, p, i, 0);
      OccursAtChar(s, p, i, 1);
      if 0 <= i {
        assert s[i] == m[i];
        assert i + 1 < |m| ==> s[i + 1] == m[i + 1];
      }
    }
  }

  /** An isolated middle is rewritten on its own when neither side contains the pattern. */
  lemma ReplaceAround(a: string, m: string, b: string, pat: string, rep: string)
    requires Isolated(m, pat) && !Contains(a, pat) && !Contains(b, pat)
    ensures Replace(a + m + b, pat, rep) == a + Replace(m, pat, rep) + b
  {
    var mb := m + b;
    assert a + m + b == a + mb;
    IsolatedLeft(a, m, b, pat);
    ReplaceKeepsLeft(a, mb, pat, rep);
    IsolatedRight(m, b, pat);
    ReplaceKeepsRight(m, b, pat, rep);
    var rm := Replace(m, pat, rep);
    assert a + (rm + b) == a + rm + b;
  }

  /** A left part without the pattern, and no match across the seam, is copied as is. */
  lemma ReplaceKeepsLeft(x: string, y: string, pat: string, rep: string)
    requires |pat| > 0 && NoMatchAcross(x, y, pat) && !Contains(x, pat)
    ensures Replace(x + y, pat, rep) == x + Replace(y, pat, rep)
  {
    ReplaceSplit(x, y, pat, rep);
  }

  /** A right part without the pattern, and no match across the seam, is copied as is. */
  lemma ReplaceKeepsRight(x: string, y: string, pat: string, rep: string)
    requires |pat| > 0 && NoMatchAcross(x, y, pat) && !Contains(y, pat)
    ensures Replace(x + y, pat, rep) == Replace(x, pat, rep) + y
  {
    ReplaceSplit(x, y, pat, rep);
  }

  /** A string in which no place shows the first three characters of `p` in a row does not contain `p`. */
  lemma NotContainsByHeads(s: string, p: string)
    requires |p| >= 3
    requires forall i :: 0 <= i && i + |p| <= |s| ==> s[i] != p[0] || s[i + 1] != p[1] || s[i + 2] != p[2]
    ensures !Contains(s, p)
  {
    forall i | 0 <= i <= |s| ensures !OccursAt(s, p, i) {
      OccursAtChar(s, p, i, 0);
      OccursAtChar(s, p, i, 1);
      OccursAtChar(s, p, i, 2);
    }
  }
}
