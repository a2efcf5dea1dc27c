/** Exponential delays on 64-bit durations, and their closed form. */
module Backoff {
  newtype Duration = x: int | -0x8000_0000_0000_0000 <= x < 0x8000_0000_0000_0000

  function Pow2(d: nat): (r: nat)
    ensures r > 0
  {
    if d == 0 then 1 else 2 * Pow2(d - 1)
  }

  function Min(a: int, b: int): int { if a < b then a else b }

  /** The delay after d doublings. */
  function Delay(base: int, max: int, d: nat): int { Min(base * Pow2(d), max) }

  lemma DelayDoubles(base: int, max: int, d: nat)
    requires 0 < base <= max
    ensures Delay(base, max, d + 1) == Min(2 * Delay(base, max, d), max)
    ensures base <= Delay(base, max, d) <= max
  {
    var p := Pow2(d);
    assert base * Pow2(d + 1) == 2 * (base * p);
    assert base * p >= base by {
      assert base * p == base + base * (p - 1);
      assert base * (p - 1) >= 0;
    }
  }

  function Grow(backoff: Duration, max: Duration): Duration
    requires 0 < backoff <= max && (max as int) * 2 < 0x8000_0000_0000_0000
  {
    if backoff * 2 < max then backoff * 2 else max
  }

  /** The configured delays, with room to double the larger. */
  predicate Validated(base: Duration, max: Duration) {
    0 < base <= max && (max as int) * 2 < 0x8000_0000_0000_0000
  }

  datatype SessionEnd = DialFailed | OtherEnd

  /** How many dial failures in a row end the list. */
  function TrailingDials(ends: seq<SessionEnd>): nat {
    if ends == [] || ends[|ends| - 1] == OtherEnd then 0 else 1 + TrailingDials(ends[..|ends| - 1])
  }

  /** Just the last d sessions failed to dial. */
  lemma {:induction false} TrailingDialsIff(ends: seq<SessionEnd>, d: nat)
    ensures TrailingDials(ends) == d <==>
            && d <= |ends| && (forall i :: |ends| - d <= i < |ends| ==> ends[i] == DialFailed)
            && (d < |ends| ==> ends[|ends| - 1 - d] == OtherEnd)
    decreases |ends|
  {
    if ends != [] && ends[|ends| - 1] == DialFailed && d > 0 {
      TrailingDialsIff(ends[..|ends| - 1], d - 1);
    }
  }

  /** The reconnect loop over the sessions so far: the sleep after session i depends on the dial
      failures that end at session i - 1, because the delay is adjusted after sleeping. */
  method Run(base: Duration, max: Duration, ends: seq<SessionEnd>) returns (sleeps: seq<Duration>)
    requires Validated(base, max)
    ensures |sleeps| == |ends|
    ensures forall i :: 0 <= i < |ends| ==> (sleeps[i] as int) == Delay(base as int, max as int, TrailingDials(ends[..i]))
    ensures forall i :: 0 <= i < |ends| ==> base <= sleeps[i] <= max
  {
    sleeps := [];
    var backoff := base;
    DelayDoubles(base as int, max as int, 0);
    var n := 0;
    while n < |ends|
      invariant 0 <= n <= |ends| && |sleeps| == n
      invariant base <= backoff <= max
      invariant (backoff as int) == Delay(base as int, max as int, TrailingDials(ends[..n]))
      invariant forall i :: 0 <= i < n ==> (sleeps[i] as int) == Delay(base as int, max as int, TrailingDials(ends[..i]))
      invariant forall i :: 0 <= i < n ==> base <= sleeps[i] <= max
    {
      sleeps := sleeps + [backoff];
      DelayDoubles(base as int, max as int, TrailingDials(ends[..n]));
      assert ends[..n + 1][..n] == ends[..n];
      if ends[n] == DialFailed {
        backoff := Grow(backoff, max);
      } else {
        backoff := base;
        DelayDoubles(base as int, max as int, 0);
      }
      n := n + 1;
    }
  }

  /** Once a doubling reaches the maximum, the delay stays there. */
  lemma {:induction false} DelayIsMonotone(base: int, max: int, d: nat, e: nat)
    requires 0 < base <= max && d <= e
    ensures Delay(base, max, d) <= Delay(base, max, e)
    ensures Delay(base, max, d) == max ==> Delay(base, max, e) == max
    decreases e - d
  {
    if d < e {
      DelayDoubles(base, max, e - 1);
      DelayIsMonotone(base, max, d, e - 1);
    }
  }
}
