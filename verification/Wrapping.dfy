/** The 76-column body format of section 6.8 of RFC 2045, as the encoder's loop writes it and
    as the decoder undoes it, with the exact size of a wrapped body. */
module Wrapping {
  import opened Octets
  import Base64

  const COLUMNS := 76

  /** Text cut into lines of at most 76 characters, each ended by CR LF. */
  function Wrap(s: Bytes): Bytes
    decreases |s|
  {
    if s == [] then []
    else if |s| <= COLUMNS then s + CRLF
    else s[..COLUMNS] + CRLF + Wrap(s[COLUMNS..])
  }

  lemma WrapLine(encoded: Bytes, i: nat, end: nat)
    requires i < |encoded|
    requires end == if i + COLUMNS > |encoded| then |encoded| else i + COLUMNS
    ensures Wrap(encoded[i..]) == encoded[i..end] + CRLF + Wrap(encoded[end..])
  {
    var rest := encoded[i..];
    assert rest[..end - i] == encoded[i..end];
    assert rest[end - i..] == encoded[end..];
    assert encoded[i..end] + CRLF + [] == encoded[i..end] + CRLF;
  }

  lemma AppendLine(buf: Bytes, line: Bytes, todo: Bytes)
    ensures buf + (line + CRLF + todo) == (buf + line) + CRLF + todo
  {
  }

  /** The encoder's wrapping loop. */
  method WriteWrapped(encoded: Bytes) returns (buf: Bytes)
    ensures buf == Wrap(encoded)
  {
    assert Wrap([]) == [];
    hide Wrap;
    buf := [];
    var i := 0;
    ghost var todo := Wrap(encoded);
    assert encoded[0..] == encoded;
    while i < |encoded|
      invariant 0 <= i
      invariant todo == if i < |encoded| then Wrap(encoded[i..]) else []
      invariant Wrap(encoded) == buf + todo
    {
      var end := i + COLUMNS;
      if end > |encoded| {
        end := |encoded|;
      }
      WrapLine(encoded, i, end);
      AppendLine(buf, encoded[i..end], Wrap(encoded[end..]));
      todo := Wrap(encoded[end..]);
      buf := buf + encoded[i..end];
      buf := buf + CRLF;
      i := i + COLUMNS;
    }
  }

  predicate IsFolding(c: Octet) { c == '\r' || c == '\n' || c == ' ' }

  /** What is left when CR, LF and space are dropped. */
  function Strip(s: Bytes): Bytes {
    if s == [] then []
    else if IsFolding(s[0]) then Strip(s[1..]) else [s[0]] + Strip(s[1..])
  }

  /** CR, LF and space, by their codes. */
  lemma FoldingCharacters(c: Octet)
    ensures IsFolding(c) <==> (c as int) in {10, 13, 32}
  {
  }

  lemma {:induction false} StripKeeps(s: Bytes, i: nat)
    requires i < |s| && !IsFolding(s[i])
    ensures s[i] in Strip(s)
  {
    if i > 0 { StripKeeps(s[1..], i - 1); }
  }

  /** Any character that is neither of base 64 nor one of those three spoils the body. */
  lemma ForeignCharacterSpoils(body: Bytes, i: nat)
    requires i < |body| && !Base64.IsCode(body[i]) && (body[i] as int) !in {10, 13, 32}
    ensures Base64.Decode(Strip(body)).None?
  {
    FoldingCharacters(body[i]);
    StripKeeps(body, i);
    var s := Strip(body);
    Base64.DecodesIffWellFormed(s);
    hide Base64.WellFormed, Base64.Decode, Base64.IsCode, Strip;
    if Base64.WellFormed(s) { Base64.WellFormedIsCode(s); }
  }

  lemma StripHead(s: Bytes)
    requires s != []
    ensures Strip(s) == (if IsFolding(s[0]) then [] else [s[0]]) + Strip(s[1..])
  {
  }

  lemma {:induction false} StripConcat(a: Bytes, b: Bytes)
    ensures Strip(a + b) == Strip(a) + Strip(b)
  {
    if a == [] {
      assert a + b == b;
    } else {
      StripHead(a);
      StripHead(a + b);
      assert (a + b)[1..] == a[1..] + b;
      StripConcat(a[1..], b);
      hide Strip, IsFolding;
    }
  }

  lemma {:induction false} StripClean(s: Bytes)
    requires forall i :: 0 <= i < |s| ==> !IsFolding(s[i])
    ensures Strip(s) == s
  {
    if s != [] { StripClean(s[1..]); }
  }

  lemma StripCRLF()
    ensures Strip(CRLF) == []
  {
    assert CRLF[1..] == ['\n'] && CRLF[1..][1..] == [];
  }

  /** Unwrapping undoes wrapping. */
  lemma {:induction false} StripWrap(s: Bytes)
    requires forall i :: 0 <= i < |s| ==> !IsFolding(s[i])
    ensures Strip(Wrap(s)) == s
    decreases |s|
  {
    StripCRLF();
    if s == [] {
    } else if |s| <= COLUMNS {
      StripConcat(s, CRLF);
      StripClean(s);
    } else {
      var head, tail := s[..COLUMNS], s[COLUMNS..];
      StripConcat(head + CRLF, Wrap(tail));
      StripConcat(head, CRLF);
      StripClean(head);
      StripWrap(tail);
      assert head + tail == s;
    }
  }

  ghost predicate GoodLine(w: Bytes, i: int, j: int) {
    && 0 <= i < j < |w| && w[j - 1] == '\r'
    && 0 < j - 1 - i <= COLUMNS
    && forall k :: i <= k < j - 1 ==> Base64.IsCode(w[k])
  }

  lemma FirstLine(h: Bytes, t: Bytes, i: int, j: int)
    requires 0 < |h| <= COLUMNS && forall k :: 0 <= k < |h| ==> Base64.IsCode(h[k])
    requires IsLine(h + CRLF + t, i, j) && i < |h| + 2
    ensures GoodLine(h + CRLF + t, i, j)
  {
    var w := h + CRLF + t;
    assert w[|h|] == '\r' && w[|h| + 1] == '\n';
    assert forall k :: 0 <= k < |h| ==> w[k] == h[k];
    assert i == 0;
    assert j == |h| + 1;
  }

  lemma LaterLine(h: Bytes, t: Bytes, i: int, j: int)
    requires IsLine(h + t, i, j) && i >= |h|
    ensures IsLine(t, i - |h|, j - |h|)
    ensures GoodLine(t, i - |h|, j - |h|) ==> GoodLine(h + t, i, j)
  {
    var w, d := h + t, |h|;
    assert forall k :: 0 <= k < |t| ==> w[k + d] == t[k];
    assert forall k :: d <= k < |w| ==> w[k] == t[k - d];
    assert i > d ==> t[i - d - 1] == w[i - 1];
  }

  /** Every line the encoder emits ends in CR LF and holds between 1 and 76 characters, all
      from the alphabet or padding. */
  lemma {:induction false} WrapLines(s: Bytes, i: int, j: int)
    requires forall k :: 0 <= k < |s| ==> Base64.IsCode(s[k])
    requires IsLine(Wrap(s), i, j) && i < |Wrap(s)|
    ensures GoodLine(Wrap(s), i, j)
    decreases |s|
  {
    if |s| <= COLUMNS {
      assert s + CRLF + [] == s + CRLF;
      FirstLine(s, [], i, j);
    } else {
      var h, t := s[..COLUMNS], Wrap(s[COLUMNS..]);
      if i < COLUMNS + 2 {
        FirstLine(h, t, i, j);
      } else {
        LaterLine(h + CRLF, t, i, j);
        WrapLines(s[COLUMNS..], i - COLUMNS - 2, j - COLUMNS - 2);
      }
    }
  }

  lemma {:induction false} WrapSize(s: Bytes)
    ensures |Wrap(s)| == |s| + 2 * ((|s| + 75) / 76)
    decreases |s|
  {
    if |s| > COLUMNS { WrapSize(s[COLUMNS..]); }
  }

  /** Go's integer division, which truncates toward zero. */
  function Quo(a: int, b: int): int
    requires b > 0
  {
    if a < 0 then -((-a) / b) else a / b
  }

  /** The bytes that a body budget can carry, by the formula of the size constant. */
  function Capacity(budget: nat): int {
    budget / 78 * 57 + Quo(budget % 78 - 2, 4) * 3
  }

  lemma CapacityArithmetic(n: nat, budget: nat, quanta: nat, lines: nat)
    requires quanta == (n + 2) / 3 && lines == (4 * quanta + 75) / 76
    ensures 4 * quanta + 2 * lines <= budget <==> n <= Capacity(budget)
  {
    var full, part := quanta / 19, quanta % 19;
    assert quanta == 19 * full + part;
    assert lines == full + (if part > 0 then 1 else 0);
    var q, r := budget / 78, budget % 78;
    assert budget == 78 * q + r;
    var m := Quo(r - 2, 4);
    assert Capacity(budget) == 57 * q + 3 * m;
    assert 0 <= m <= 18;
    assert quanta <= 19 * q + m <==> n <= 57 * q + 3 * m;
    if full < q {
    } else if full == q {
      assert part > 0 ==> (4 * part + 2 <= r <==> part <= m);
    } else {
      assert 4 * quanta + 2 * lines >= 78 * full;
    }
  }

  /** The formula is exact for every budget: never off by one in either direction. */
  lemma FitsIffWithinCapacity(p: Bytes, budget: nat)
    ensures |Wrap(Base64.Encode(p))| <= budget <==> |p| <= Capacity(budget)
  {
    WrapSize(Base64.Encode(p));
    var quanta := (|p| + 2) / 3;
    CapacityArithmetic(|p|, budget, quanta, (4 * quanta + 75) / 76);
  }

  /** One edit of a body: a folding character put in, or one taken out. */
  datatype Edit = Insert(at: nat, c: Octet) | Delete(at: nat)

  function Apply(s: Bytes, e: Edit): Bytes {
    match e
    case Insert(at, c) => if at <= |s| && IsFolding(c) then s[..at] + [c] + s[at..] else s
    case Delete(at) => if at < |s| && IsFolding(s[at]) then s[..at] + s[at + 1..] else s
  }

  function ApplyAll(s: Bytes, es: seq<Edit>): Bytes
    decreases |es|
  {
    if es == [] then s else ApplyAll(Apply(s, es[0]), es[1..])
  }

  lemma StripOne(a: Bytes, c: Octet, b: Bytes)
    requires IsFolding(c)
    ensures Strip(a + [c] + b) == Strip(a + b)
  {
    StripConcat(a + [c], b);
    StripConcat(a, [c]);
    StripConcat(a, b);
    assert [c][1..] == [];
  }

  /** Any rewrapping that a mail system may do leaves the stripped text alone. */
  lemma {:induction false} EditsKeepText(s: Bytes, es: seq<Edit>)
    ensures Strip(ApplyAll(s, es)) == Strip(s)
    decreases |es|
  {
    if es != [] {
      match es[0] {
        case Insert(at, c) =>
          if at <= |s| && IsFolding(c) {
            StripOne(s[..at], c, s[at..]);
            assert s[..at] + s[at..] == s;
          }
        case Delete(at) =>
          if at < |s| && IsFolding(s[at]) {
            StripOne(s[..at], s[at], s[at + 1..]);
            assert s[..at] + [s[at]] + s[at + 1..] == s;
          }
      }
      EditsKeepText(Apply(s, es[0]), es[1..]);
    }
  }
}
