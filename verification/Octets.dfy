/** Byte strings, as the mail path sees them.  An octet is a character below 256, so the
    ASCII constants of the wire format can be written as ordinary literals. */
module Octets {
  type Octet = c: char | (c as int) < 256 witness 'a'
  type Bytes = seq<Octet>

  datatype Option<+T> = None | Some(value: T)

  const CR: Octet := '\r'
  const LF: Octet := '\n'
  const CRLF: Bytes := ['\r', '\n']

  /** A blank that may open a folded line or pad a header value. */
  predicate IsBlank(c: Octet) { c == ' ' || c == '\t' }

  /** White space in the sense of trimming: ASCII only. */
  predicate IsSpace(c: Octet) {
    c == ' ' || ('\t' <= c <= '\r')
  }

  function Lower(c: Octet): Octet {
    if 'A' <= c <= 'Z' then ((c as int) + 32) as char else c
  }

  function LowerAll(s: Bytes): (r: Bytes)
    ensures |r| == |s|
    ensures forall i :: 0 <= i < |s| ==> r[i] == Lower(s[i])
  {
    seq(|s|, i requires 0 <= i < |s| => Lower(s[i]))
  }

  /** Equality of ASCII names that ignores letter case. */
  predicate EqualFold(a: Bytes, b: Bytes) {
    |a| == |b| && forall i :: 0 <= i < |a| ==> Lower(a[i]) == Lower(b[i])
  }

  function TrimLeftBy(s: Bytes, p: Octet -> bool): (r: Bytes)
    ensures r == [] || !p(r[0])
    ensures s != [] && !p(s[0]) ==> r == s
  {
    if s == [] then [] else if p(s[0]) then TrimLeftBy(s[1..], p) else s
  }

  function TrimRightBy(s: Bytes, p: Octet -> bool): (r: Bytes)
    ensures r == [] || !p(r[|r| - 1])
    ensures s != [] && !p(s[|s| - 1]) ==> r == s
  {
    if s == [] then [] else if p(s[|s| - 1]) then TrimRightBy(s[..|s| - 1], p) else s
  }

  function TrimBlanks(s: Bytes): Bytes {
    TrimRightBy(TrimLeftBy(s, IsBlank), IsBlank)
  }

  function TrimSpace(s: Bytes): Bytes {
    TrimRightBy(TrimLeftBy(s, IsSpace), IsSpace)
  }

  /** The position of the first c at or after `from`, or |s|. */
  function Find(s: Bytes, c: Octet, from: nat := 0): (i: nat)
    requires from <= |s|
    ensures from <= i <= |s|
    ensures i < |s| ==> s[i] == c
    ensures forall k :: from <= k < i ==> s[k] != c
    decreases |s| - from
  {
    if from == |s| || s[from] == c then from else Find(s, c, from + 1)
  }

  /** `pat` occurs in s at position i. */
  predicate OccursAt(s: Bytes, pat: Bytes, i: int) {
    0 <= i && i + |pat| <= |s| && s[i..i + |pat|] == pat
  }

  /** The first occurrence of a pattern, as a substring search reports it. */
  function Search(s: Bytes, pat: Bytes, from: nat := 0): (r: Option<nat>)
    ensures r.Some? ==> from <= r.value && OccursAt(s, pat, r.value)
    ensures r.Some? ==> forall k :: from <= k < r.value ==> !OccursAt(s, pat, k)
    ensures r.None? ==> forall k :: from <= k ==> !OccursAt(s, pat, k)
    decreases |s| - from
  {
    if from + |pat| > |s| then None
    else if s[from..from + |pat|] == pat then Some(from)
    else Search(s, pat, from + 1)
  }

  /** A line of s: a stretch free of LF that runs from a line start to an LF or the end. */
  ghost predicate IsLine(s: Bytes, i: int, j: int) {
    && 0 <= i <= j <= |s|
    && (i == 0 || s[i - 1] == '\n')
    && (j == |s| || s[j] == '\n')
    && forall k :: i <= k < j ==> s[k] != '\n'
  }

  /* ---- What the primitives mean ---- */

  /** The six white space characters and the two blanks, by their codes; and case folding:
      the 26 capitals go to the small letters in order, and nothing else changes. */
  lemma CharacterClasses(c: Octet)
    ensures IsBlank(c) <==> (c as int) in {9, 32}
    ensures IsSpace(c) <==> (c as int) in {9, 10, 11, 12, 13, 32}
    ensures (Lower(c) as int) == if 65 <= (c as int) < 91 then (c as int) + 32 else (c as int)
  {
  }

  ghost predicate All(s: Bytes, p: Octet -> bool) { forall i :: 0 <= i < |s| ==> p(s[i]) }

  /** Text without a character of p at either edge. */
  ghost predicate IsCore(t: Bytes, p: Octet -> bool) { t == [] || (!p(t[0]) && !p(t[|t| - 1])) }

  lemma {:induction false} TrimLeftCuts(s: Bytes, p: Octet -> bool) returns (a: Bytes)
    ensures s == a + TrimLeftBy(s, p) && All(a, p)
  {
    if s != [] && p(s[0]) {
      var rest := TrimLeftCuts(s[1..], p);
      a := [s[0]] + rest;
    } else {
      a := [];
    }
  }

  lemma {:induction false} TrimRightCuts(s: Bytes, p: Octet -> bool) returns (b: Bytes)
    ensures s == TrimRightBy(s, p) + b && All(b, p)
  {
    if s != [] && p(s[|s| - 1]) {
      var rest := TrimRightCuts(s[..|s| - 1], p);
      b := rest + [s[|s| - 1]];
    } else {
      b := [];
    }
  }

  /** Trimming takes away characters of p at the edges, all of them and nothing else. */
  lemma TrimCuts(s: Bytes, p: Octet -> bool) returns (a: Bytes, b: Bytes)
    ensures var t := TrimRightBy(TrimLeftBy(s, p), p);
            s == a + t + b && All(a, p) && All(b, p) && IsCore(t, p)
  {
    a := TrimLeftCuts(s, p);
    var l := TrimLeftBy(s, p);
    b := TrimRightCuts(l, p);
    var t := TrimRightBy(l, p);
    assert s == a + (t + b);
    if t != [] { assert t[0] == l[0]; }
  }

  lemma {:induction false} TrimLeftOf(a: Bytes, s: Bytes, p: Octet -> bool)
    requires All(a, p)
    ensures TrimLeftBy(a + s, p) == TrimLeftBy(s, p)
  {
    if a == [] {
      assert a + s == s;
    } else {
      assert (a + s)[0] == a[0] && (a + s)[1..] == a[1..] + s;
      TrimLeftOf(a[1..], s, p);
    }
  }

  lemma {:induction false} TrimRightOf(s: Bytes, b: Bytes, p: Octet -> bool)
    requires All(b, p)
    ensures TrimRightBy(s + b, p) == TrimRightBy(s, p)
  {
    if b == [] {
      assert s + b == s;
    } else {
      var n := |b| - 1;
      assert (s + b)[|s + b| - 1] == b[n] && (s + b)[..|s + b| - 1] == s + b[..n];
      TrimRightOf(s, b[..n], p);
    }
  }

  /** And the other way round: what is between them comes back. */
  lemma TrimOf(a: Bytes, t: Bytes, b: Bytes, p: Octet -> bool)
    requires All(a, p) && All(b, p) && IsCore(t, p)
    ensures TrimRightBy(TrimLeftBy(a + t + b, p), p) == t
  {
    assert a + t + b == a + (t + b);
    TrimLeftOf(a, t + b, p);
    if t == [] {
      assert t + b == b;
      var l := TrimLeftCuts(b, p);
      assert b + [] == b;
      TrimLeftOf(b, [], p);
    } else {
      assert (t + b)[0] == t[0];
      TrimRightOf(t, b, p);
    }
  }
}
