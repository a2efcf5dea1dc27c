/** Base 64, section 4 of RFC 4648: the standard alphabet with padding, decoded as leniently
    about the unused trailing bits as the Go standard decoder. */
module Base64 {
  import opened Octets

  predicate IsAlpha(c: Octet) {
    'A' <= c <= 'Z' || 'a' <= c <= 'z' || '0' <= c <= '9' || c == '+' || c == '/'
  }

  /** A character that may occur in encoded text. */
  predicate IsCode(c: Octet) { IsAlpha(c) || c == '=' }

  function Symbol(v: int): (c: Octet)
    requires 0 <= v < 64
    ensures IsAlpha(c)
    ensures Value(c) == v
  {
    if v < 26 then (v + 65) as char
    else if v < 52 then (v + 71) as char
    else if v < 62 then (v - 4) as char
    else if v == 62 then '+' else '/'
  }

  function Value(c: Octet): (v: int)
    requires IsAlpha(c)
    ensures 0 <= v < 64
  {
    if 'A' <= c <= 'Z' then (c as int) - 65
    else if 'a' <= c <= 'z' then (c as int) - 71
    else if '0' <= c <= '9' then (c as int) + 4
    else if c == '+' then 62 else 63
  }

  function Group3(a: Octet, b: Octet, c: Octet): (s: Bytes)
    ensures |s| == 4 && forall i :: 0 <= i < 4 ==> IsAlpha(s[i])
  {
    var x, y, z := a as int, b as int, c as int;
    [Symbol(x / 4), Symbol(x % 4 * 16 + y / 16), Symbol(y % 16 * 4 + z / 64), Symbol(z % 64)]
  }

  function Ungroup(p: Octet, q: Octet, r: Octet, s: Octet): (t: Bytes)
    requires IsAlpha(p) && IsAlpha(q) && IsAlpha(r) && IsAlpha(s)
    ensures |t| == 3
  {
    var a, b, c, d := Value(p), Value(q), Value(r), Value(s);
    [(a * 4 + b / 16) as char, (b % 16 * 16 + c / 4) as char, (c % 4 * 64 + d) as char]
  }

  function Encode(p: Bytes): (s: Bytes)
    ensures |s| == 4 * ((|p| + 2) / 3)
    ensures forall i :: 0 <= i < |s| ==> IsCode(s[i])
  {
    if |p| == 0 then []
    else if |p| == 1 then Group3(p[0], '\0', '\0')[..2] + ['=', '=']
    else if |p| == 2 then Group3(p[0], p[1], '\0')[..3] + ['=']
    else Group3(p[0], p[1], p[2]) + Encode(p[3..])
  }

  /** One quantum of four characters; only padding makes it shorter than three bytes. */
  function Quantum(p: Octet, q: Octet, r: Octet, s: Octet): Option<Bytes> {
    if !IsAlpha(p) || !IsAlpha(q) then None
    else if IsAlpha(r) && IsAlpha(s) then Some(Ungroup(p, q, r, s))
    else if IsAlpha(r) && s == '=' then Some(Ungroup(p, q, r, 'A')[..2])
    else if r == '=' && s == '=' then Some(Ungroup(p, q, 'A', 'A')[..1])
    else None
  }

  /** Nothing may follow a padded quantum, and no quantum may be cut short. */
  function Decode(s: Bytes): Option<Bytes> {
    if |s| == 0 then Some([])
    else if |s| < 4 then None
    else
      var q := Quantum(s[0], s[1], s[2], s[3]);
      if q.None? then None
      else if |q.value| < 3 then (if |s| == 4 then q else None)
      else
        var rest := Decode(s[4..]);
        if rest.None? then None else Some(q.value + rest.value)
  }

  lemma Sextets(x: int, y: int, z: int)
    requires 0 <= x < 256 && 0 <= y < 256 && 0 <= z < 256
    ensures x / 4 * 4 + (x % 4 * 16 + y / 16) / 16 == x
    ensures (x % 4 * 16 + y / 16) % 16 * 16 + (y % 16 * 4 + z / 64) / 4 == y
    ensures (y % 16 * 4 + z / 64) % 4 * 64 + z % 64 == z
  {
    assert (x % 4 * 16 + y / 16) / 16 == x % 4;
    assert (x % 4 * 16 + y / 16) % 16 == y / 16;
    assert (y % 16 * 4 + z / 64) / 4 == y % 16;
    assert (y % 16 * 4 + z / 64) % 4 == z / 64;
  }

  lemma UngroupGroup(a: Octet, b: Octet, c: Octet)
    ensures var g := Group3(a, b, c); Ungroup(g[0], g[1], g[2], g[3]) == [a, b, c]
  {
    var x, y, z := a as int, b as int, c as int;
    Sextets(x, y, z);
    hide Symbol, Value, IsAlpha;
    var g := Group3(a, b, c);
    assert Value(g[0]) == x / 4 && Value(g[1]) == x % 4 * 16 + y / 16;
    assert Value(g[2]) == y % 16 * 4 + z / 64 && Value(g[3]) == z % 64;
  }

  /** The last symbols of a group stand for zero bits when the octets behind them are zero. */
  lemma PaddedGroup(a: Octet, b: Octet)
    ensures Group3(a, b, '\0')[3] == 'A'
    ensures Group3(a, '\0', '\0')[2] == 'A' && Group3(a, '\0', '\0')[3] == 'A'
  {
    assert Symbol(0) == 'A';
  }

  lemma QuantumGroup(a: Octet, b: Octet, c: Octet)
    ensures var g := Group3(a, b, c); Quantum(g[0], g[1], g[2], g[3]) == Some([a, b, c])
    ensures var g := Group3(a, b, '\0'); Quantum(g[0], g[1], g[2], '=') == Some([a, b])
    ensures var g := Group3(a, '\0', '\0'); Quantum(g[0], g[1], '=', '=') == Some([a])
  {
    UngroupGroup(a, b, c);
    UngroupGroup(a, b, '\0');
    UngroupGroup(a, '\0', '\0');
    PaddedGroup(a, b);
    hide Group3, Ungroup, IsCode;
    var g, h := Group3(a, b, '\0'), Group3(a, '\0', '\0');
    assert Ungroup(g[0], g[1], g[2], 'A') == [a, b, '\0'];
    assert [a, b, '\0'][..2] == [a, b];
    assert Ungroup(h[0], h[1], 'A', 'A') == [a, '\0', '\0'];
    assert [a, '\0', '\0'][..1] == [a];
  }

  /** Decoding undoes encoding, for packets of every length. */
  lemma {:induction false} DecodeEncode(p: Bytes)
    ensures Decode(Encode(p)) == Some(p)
    decreases |p|
  {
    hide Group3, Quantum, IsCode;
    var s := Encode(p);
    if |p| == 0 {
    } else if |p| == 1 {
      QuantumGroup(p[0], '\0', '\0');
      assert p == [p[0]];
    } else if |p| == 2 {
      QuantumGroup(p[0], p[1], '\0');
      assert p == [p[0], p[1]];
    } else {
      QuantumGroup(p[0], p[1], p[2]);
      assert s[4..] == Encode(p[3..]);
      DecodeEncode(p[3..]);
      assert [p[0], p[1], p[2]] + p[3..] == p;
    }
  }

  /** Text the decoder accepts: whole quanta of the alphabet, padded only at the very end. */
  ghost predicate WellFormed(s: Bytes) {
    && |s| % 4 == 0
    && (forall i :: 0 <= i < |s| - 2 ==> IsAlpha(s[i]))
    && (|s| > 0 ==> (IsAlpha(s[|s| - 1]) && IsAlpha(s[|s| - 2]))
                    || (s[|s| - 1] == '=' && (IsAlpha(s[|s| - 2]) || s[|s| - 2] == '=')))
  }

  lemma QuantumIff(p: Octet, q: Octet, r: Octet, s: Octet)
    ensures var t := Quantum(p, q, r, s);
            && (t.Some? <==> IsAlpha(p) && IsAlpha(q) && ((IsAlpha(s) && IsAlpha(r)) || (s == '=' && (IsAlpha(r) || r == '='))))
            && (t.Some? ==> (|t.value| == 3 <==> IsAlpha(s)) && |t.value| <= 3)
    ensures !IsAlpha('=')
  {
    hide Ungroup;
  }

  lemma WellFormedIsCode(s: Bytes)
    requires WellFormed(s)
    ensures forall i :: 0 <= i < |s| ==> IsCode(s[i])
  {
  }

  lemma {:induction false} DecodesIffWellFormed(s: Bytes)
    ensures Decode(s).Some? <==> WellFormed(s)
    decreases |s|
  {
    hide Quantum, IsAlpha;
    if |s| >= 4 { QuantumIff(s[0], s[1], s[2], s[3]); }
    if |s| > 4 && (forall i :: 0 <= i < 4 ==> IsAlpha(s[i])) {
      DecodesIffWellFormed(s[4..]);
      var t := s[4..];
      if WellFormed(t) {
        forall i | 0 <= i < |s| - 2 ensures IsAlpha(s[i]) {
          if i >= 4 { assert s[i] == t[i - 4]; }
        }
      }
    }
  }

  /** The alphabet of the standard's table 1, by its ends and its order. */
  lemma SymbolsInOrder(v: int)
    requires 0 <= v < 64
    ensures Symbol(0) == 'A' && Symbol(25) == 'Z' && Symbol(26) == 'a' && Symbol(51) == 'z'
    ensures Symbol(52) == '0' && Symbol(61) == '9' && Symbol(62) == '+' && Symbol(63) == '/'
    ensures v !in {25, 51, 61, 62, 63} ==> Symbol(v + 1) as int == Symbol(v) as int + 1
  {
  }

  /** Four symbols spell the same 24-bit number as the three octets they encode, most
      significant first. */
  lemma GroupIsBigEndian(a: Octet, b: Octet, c: Octet)
    ensures var g := Group3(a, b, c);
            (a as int) * 0x10000 + (b as int) * 0x100 + (c as int)
            == Value(g[0]) * 0x40000 + Value(g[1]) * 0x1000 + Value(g[2]) * 0x40 + Value(g[3])
  {
    var x, y, z := a as int, b as int, c as int;
    assert x == x / 4 * 4 + x % 4 && y == y / 16 * 16 + y % 16 && z == z / 64 * 64 + z % 64;
  }
}
