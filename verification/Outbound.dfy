/** Outbound delivery of one packet: a bounded retry loop over submissions whose outcome may be
    unknown, at most once; and the probe loop of recovery. */
module Outbound {
  import opened Octets
  import Backoff
  import Envelope
  import Smtp

  const MAX_RETRIES: nat := 3

  /** One attempt: the submission, and whether the send context expires in the wait after it. */
  datatype Attempt = Attempt(stages: Smtp.Stages, expires: bool)

  /** The sends that a packet leads to, given how each attempt would go. */
  function Results(script: seq<Attempt>, startTls: bool): (r: seq<Option<Smtp.SendError>>)
    ensures |r| <= |script|
  {
    if script == [] then []
    else
      var first := Smtp.SendResult(script[0].stages, startTls);
      if first == Some(Smtp.Failed) && (|script| == 1 || !script[0].expires)
      then [first] + Results(script[1..], startTls)
      else [first]
  }

  /** How often the server keeps the message over those sends. */
  function Kept(script: seq<Attempt>, startTls: bool): nat {
    if script == [] then 0
    else
      (if Smtp.Keeps(script[0].stages, startTls) then 1 else 0) +
      if Smtp.SendResult(script[0].stages, startTls) == Some(Smtp.Failed) && (|script| == 1 || !script[0].expires)
      then Kept(script[1..], startTls) else 0
  }

  function Repeat(msg: Bytes, n: nat): seq<Bytes> { seq(n, _ => msg) }

  /** Recovery is due after an unknown outcome, or when every retry failed. */
  predicate NeedsRecovery(results: seq<Option<Smtp.SendError>>) {
    results != [] &&
    (results[|results| - 1] == Some(Smtp.OutcomeUnknown)
     || (|results| == MAX_RETRIES && results[|results| - 1] == Some(Smtp.Failed)))
  }

  lemma PlainFailureKeepsNothing(st: Smtp.Stages, startTls: bool)
    ensures Smtp.SendResult(st, startTls) == Some(Smtp.Failed) ==> !Smtp.Keeps(st, startTls)
    ensures Smtp.SendResult(st, startTls) == None ==> Smtp.Keeps(st, startTls)
  {
  }

  /** Attempt n goes on to the next one. */
  predicate GoesOn(script: seq<Attempt>, n: nat, startTls: bool)
    requires n < |script|
  {
    Smtp.SendResult(script[n].stages, startTls) == Some(Smtp.Failed)
    && (n == |script| - 1 || !script[n].expires)
  }

  /** One attempt unrolled, at the head of what is left of the script. */
  lemma Unroll(script: seq<Attempt>, n: nat, startTls: bool)
    requires n < |script|
    ensures var first := [Smtp.SendResult(script[n].stages, startTls)];
            if GoesOn(script, n, startTls)
            then Results(script[n..], startTls) == first + Results(script[n + 1..], startTls)
                 && Kept(script[n..], startTls) == Kept(script[n + 1..], startTls)
            else Results(script[n..], startTls) == first
                 && Kept(script[n..], startTls) == if Smtp.Keeps(script[n].stages, startTls) then 1 else 0
  {
    var rest := script[n..];
    assert rest[0] == script[n] && rest[1..] == script[n + 1..];
    PlainFailureKeepsNothing(script[n].stages, startTls);
    hide Smtp.SendResult, Smtp.Keeps;
  }

  /** After n plain failures: the sends so far, and what is left of the script. */
  ghost predicate Midway(script: seq<Attempt>, n: nat, startTls: bool, results: seq<Option<Smtp.SendError>>) {
    && n == |results| <= |script|
    && Results(script, startTls) == results + Results(script[n..], startTls)
    && Kept(script, startTls) == Kept(script[n..], startTls)
  }

  lemma AtStart(script: seq<Attempt>, startTls: bool)
    ensures Midway(script, 0, startTls, [])
  {
    assert script[0..] == script;
  }

  /** What the next attempt adds to them. */
  lemma OneMore(script: seq<Attempt>, n: nat, startTls: bool, results: seq<Option<Smtp.SendError>>)
    requires n < |script| && Midway(script, n, startTls, results)
    ensures var next := results + [Smtp.SendResult(script[n].stages, startTls)];
            if GoesOn(script, n, startTls) then Midway(script, n + 1, startTls, next)
            else Results(script, startTls) == next
                 && Kept(script, startTls) == if Smtp.Keeps(script[n].stages, startTls) then 1 else 0
  {
    hide Smtp.SendResult, Smtp.Keeps, Results, Kept;
    Unroll(script, n, startTls);
  }

  lemma AtEnd(script: seq<Attempt>, startTls: bool, results: seq<Option<Smtp.SendError>>)
    requires Midway(script, |script|, startTls, results)
    ensures Results(script, startTls) == results && Kept(script, startTls) == 0
  {
    assert script[|script|..] == [];
  }

  lemma RepeatFew(msg: Bytes)
    ensures Repeat(msg, 0) == [] && Repeat(msg, 1) == [msg]
  {
  }

  /** The waits that go with those sends: one after every plain failure but the last attempt's. */
  function WaitCount(results: seq<Option<Smtp.SendError>>): int {
    if results == [] then 0
    else if |results| < MAX_RETRIES && results[|results| - 1] == Some(Smtp.Failed) then |results|
    else |results| - 1
  }

  ghost predicate Doubling(waits: seq<nat>) { forall i :: 0 <= i < |waits| ==> waits[i] == Backoff.Pow2(i) }

  lemma DoublingGrows(waits: seq<nat>, backoff: nat)
    requires Doubling(waits) && backoff == Backoff.Pow2(|waits|)
    ensures Doubling(waits + [backoff]) && backoff * 2 == Backoff.Pow2(|waits| + 1)
  {
  }

  lemma OneAndTwo()
    ensures forall waits :: Doubling(waits) ==> (|waits| > 0 ==> waits[0] == 1) && (|waits| > 1 ==> waits[1] == 2)
  {
    assert Backoff.Pow2(0) == 1 && Backoff.Pow2(1) == 2;
  }

  lemma DoublingStarts()
    ensures Doubling([]) && Backoff.Pow2(0) == 1
  {
  }

  /** The retry loop over one composed message. */
  method SendWithRetries(relay: Smtp.Relay, msg: Bytes, script: seq<Attempt>)
    returns (results: seq<Option<Smtp.SendError>>, waits: seq<nat>, recover: bool)
    requires |script| == MAX_RETRIES
    modifies relay
    ensures results == Results(script, relay.startTls)
    ensures relay.mail == old(relay.mail) + Repeat(msg, Kept(script, relay.startTls))
    ensures recover == NeedsRecovery(results)
    ensures |waits| == WaitCount(results) && Doubling(waits)
    // At most three sends, and waits of one second and then two.
    ensures |results| <= 3 && |waits| <= 2 && (|waits| > 0 ==> waits[0] == 1) && (|waits| > 1 ==> waits[1] == 2)
  {
    OneAndTwo();
    hide Smtp.SendResult, Smtp.Keeps, Results, Kept, Midway, Repeat, Doubling, Backoff.Pow2;
    DoublingStarts();
    RepeatFew(msg);
    AtStart(script, relay.startTls);
    results, waits, recover := [], [], false;
    var backoff: nat := 1;
    var attempt := 1;
    while attempt <= MAX_RETRIES
      invariant 1 <= attempt <= MAX_RETRIES + 1
      invariant |results| == attempt - 1 && relay.mail == old(relay.mail)
      invariant results != [] ==> results[|results| - 1] == Some(Smtp.Failed)
      invariant Midway(script, attempt - 1, relay.startTls, results)
      invariant |waits| == (if attempt <= MAX_RETRIES then attempt - 1 else MAX_RETRIES - 1) && Doubling(waits)
      invariant attempt <= MAX_RETRIES ==> backoff == Backoff.Pow2(attempt - 1)
    {
      OneMore(script, attempt - 1, relay.startTls, results);
      PlainFailureKeepsNothing(script[attempt - 1].stages, relay.startTls);
      var err := Smtp.Send(relay, msg, script[attempt - 1].stages);
      results := results + [err];
      if err.None? {
        return;
      }
      if err.value == Smtp.OutcomeUnknown {
        recover := true;
        return;
      }
      if attempt < MAX_RETRIES {
        DoublingGrows(waits, backoff);
        waits := waits + [backoff];
        if script[attempt - 1].expires {
          return;
        }
        backoff := backoff * 2;
      }
      attempt := attempt + 1;
    }
    AtEnd(script, relay.startTls, results);
    recover := true;
  }

  /** The send callback of the pipe, up to the request for recovery. */
  method HandlePacket(lib: Envelope.Library, p: Envelope.Params, uuid: Bytes, date: Bytes,
                      relay: Smtp.Relay, script: seq<Attempt>)
    returns (results: seq<Option<Smtp.SendError>>, waits: seq<nat>, recover: bool)
    requires |script| == MAX_RETRIES
    modifies relay
    ensures p.from == [] || p.to == [] || p.packet == [] ==>
              results == [] && !recover && relay.mail == old(relay.mail)
    ensures p.from != [] && p.to != [] && p.packet != [] ==>
              var msg := Envelope.Enveloped(p, Envelope.MessageId(lib, p.from, uuid), date);
              && results == Results(script, relay.startTls)
              && relay.mail == old(relay.mail) + Repeat(msg, Kept(script, relay.startTls))
    ensures recover == NeedsRecovery(results)
    ensures |waits| == WaitCount(results) && Doubling(waits)
  {
    hide Envelope.Enveloped, Envelope.MessageId, Results, Kept, Repeat, Doubling;
    DoublingStarts();
    var env, mid := Envelope.Encode(lib, p, uuid, date);
    results, waits, recover := [], [], false;
    if env.None? { return; }
    results, waits, recover := SendWithRetries(relay, env.value, script);
  }

  /** For every sequence of stage outcomes: at most as many sends as attempts, none after a
      success or an unknown outcome, the server keeps the packet at most once, and it keeps it
      if the last send succeeded and not if the last send plainly failed. */
  lemma {:induction false} AtMostOnce(script: seq<Attempt>, startTls: bool)
    ensures var r := Results(script, startTls);
            && |r| <= |script|
            && (forall i :: 0 <= i < |r| - 1 ==> r[i] == Some(Smtp.Failed))
            && Kept(script, startTls) <= 1
            && (r != [] && r[|r| - 1] == None ==> Kept(script, startTls) == 1)
            && (r != [] && r[|r| - 1] == Some(Smtp.Failed) ==> Kept(script, startTls) == 0)
            && (r != [] && r[|r| - 1] == Some(Smtp.Failed) && |r| < |script| ==> script[|r| - 1].expires)
  {
    hide Smtp.SendResult, Smtp.Keeps;
    if script != [] {
      PlainFailureKeepsNothing(script[0].stages, startTls);
      AtMostOnce(script[1..], startTls);
    }
  }

  /** The relay surely did not keep the message: it never got it all, or it said no. */
  predicate SurelyFails(st: Smtp.Stages, startTls: bool) { !Smtp.Submits(st, startTls) || st.commit.Rejected? }

  /** Attempt i is made: every one before it surely failed, and no wait was cut short. */
  predicate Reached(script: seq<Attempt>, i: nat, startTls: bool)
    requires i <= |script|
  {
    forall j :: 0 <= j < i ==> SurelyFails(script[j].stages, startTls) && (j < |script| - 1 ==> !script[j].expires)
  }

  /** Recovery begins exactly if an attempt sent the whole message and lost the answer, or all
      the attempts were made and surely failed. */
  lemma RecoveryDueIff(script: seq<Attempt>, startTls: bool)
    requires |script| == MAX_RETRIES
    ensures NeedsRecovery(Results(script, startTls)) <==>
            || (exists i :: 0 <= i < MAX_RETRIES && Reached(script, i, startTls)
                            && Smtp.Submits(script[i].stages, startTls) && script[i].stages.commit.AnswerLost?)
            || Reached(script, MAX_RETRIES, startTls)
  {
    hide Smtp.Submits;
    var end := Ends(script, startTls, 0);
    var r := Results(script, startTls);
    assert script[0..] == script;
    forall j | 0 <= j < end ensures SurelyFails(script[j].stages, startTls) && (j < |script| - 1 ==> !script[j].expires) {
      assert GoesOn(script, j, startTls);
    }
    assert Reached(script, end, startTls);
    if end < MAX_RETRIES {
      var last := script[end];
      assert r[|r| - 1] == Smtp.SendResult(last.stages, startTls) && |r| == end + 1;
      assert !SurelyFails(last.stages, startTls) || (end < MAX_RETRIES - 1 && last.expires);
      assert forall i :: end < i <= MAX_RETRIES ==> !Reached(script, i, startTls);
    }
  }

  /** Where the attempts from n on end: at the first that does not go on, if there is one. */
  lemma {:induction false} Ends(script: seq<Attempt>, startTls: bool, n: nat) returns (end: nat)
    requires n <= |script|
    ensures n <= end <= |script| && forall j :: n <= j < end ==> GoesOn(script, j, startTls)
    ensures end < |script| ==> !GoesOn(script, end, startTls)
    ensures var r := Results(script[n..], startTls);
            && |r| == end - n + (if end < |script| then 1 else 0)
            && (forall k :: 0 <= k < end - n ==> r[k] == Some(Smtp.Failed))
            && (end < |script| ==> r[end - n] == Smtp.SendResult(script[end].stages, startTls))
    decreases |script| - n
  {
    hide Smtp.SendResult, Smtp.Keeps, Results;
    if n == |script| {
      end := n;
      assert script[n..] == [];
      NoResults(startTls);
    } else {
      Unroll(script, n, startTls);
      if GoesOn(script, n, startTls) {
        end := Ends(script, startTls, n + 1);
      } else {
        end := n;
      }
    }
  }

  lemma NoResults(startTls: bool)
    ensures Results([], startTls) == []
  {
  }

  /* ---- The probe loop of recovery ---- */

  datatype ProbeRound = Cancelled | Probed(stages: Smtp.Stages)
  datatype ProbeEnd = Probing | BackOnline | GaveUp

  /** The loop over the rounds so far: probe k waits base * 2^(k-1), capped. */
  method Recover(relay: Smtp.Relay, base: Backoff.Duration, max: Backoff.Duration, rounds: seq<ProbeRound>)
    returns (end: ProbeEnd, waits: seq<Backoff.Duration>)
    requires Backoff.Validated(base, max)
    ensures |waits| <= |rounds| && (end == Probing ==> |waits| == |rounds|)
    ensures forall k :: 0 <= k < |waits| ==>
              && (waits[k] as int) == Backoff.Delay(base as int, max as int, k)
              && base <= waits[k] <= max
    ensures forall k :: 0 <= k < |waits| - (if end == Probing then 0 else 1) ==>
              rounds[k].Probed? && !Smtp.Connects(rounds[k].stages, relay.startTls)
    ensures end == BackOnline ==>
              waits != [] && rounds[|waits| - 1].Probed? && Smtp.Connects(rounds[|waits| - 1].stages, relay.startTls)
    ensures end == GaveUp ==> waits != [] && rounds[|waits| - 1].Cancelled?
    ensures relay.mail == old(relay.mail)
  {
    waits := [];
    var backoff := base;
    Backoff.DelayDoubles(base as int, max as int, 0);
    assert (base as int) * Backoff.Pow2(0) == (base as int);
    var n := 0;
    while n < |rounds|
      invariant 0 <= n <= |rounds| && |waits| == n
      invariant (backoff as int) == Backoff.Delay(base as int, max as int, n) && base <= backoff <= max
      invariant forall k :: 0 <= k < n ==>
                  (waits[k] as int) == Backoff.Delay(base as int, max as int, k) && base <= waits[k] <= max
      invariant forall k :: 0 <= k < n ==> rounds[k].Probed? && !Smtp.Connects(rounds[k].stages, relay.startTls)
    {
      waits := waits + [backoff];
      if rounds[n].Cancelled? { return GaveUp, waits; }
      var ok := Smtp.Probe(relay, rounds[n].stages);
      if ok { return BackOnline, waits; }
      Backoff.DelayDoubles(base as int, max as int, n);
      Backoff.DelayDoubles(base as int, max as int, n + 1);
      backoff := Backoff.Grow(backoff, max);
      n := n + 1;
    }
    return Probing, waits;
  }
}
