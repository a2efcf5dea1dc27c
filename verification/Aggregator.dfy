/** The online aggregator: two health signals combined into one, reported on change only. */
module Aggregator {
  datatype State = State(imapUp: bool, smtpUp: bool, last: bool, log: seq<bool>)
  datatype Signal = Imap(online: bool) | Smtp(online: bool)

  /** The state pushed before anything starts: offline, and reported so. */
  const START := State(false, false, false, [false])

  function Update(s: State): State {
    var combined := s.imapUp && s.smtpUp;
    if combined != s.last then s.(last := combined, log := s.log + [combined]) else s
  }

  function Set(s: State, sig: Signal): State {
    match sig
    case Imap(b) => Update(s.(imapUp := b))
    case Smtp(b) => Update(s.(smtpUp := b))
  }

  /** The aggregator object; each call runs under its lock, hence as one step.  `log` is what
      the callback was called with. */
  class OnlineAggregator {
    var imapUp: bool
    var smtpUp: bool
    var last: bool
    var log: seq<bool>

    function Snapshot(): State
      reads this
    {
      State(imapUp, smtpUp, last, log)
    }

    constructor ()
      ensures Snapshot() == START
    {
      imapUp, smtpUp, last, log := false, false, true, [];
      new;
      log := log + [false];
      last := false;
    }

    method SetImap(online: bool)
      modifies this
      ensures Snapshot() == Set(old(Snapshot()), Imap(online))
    {
      imapUp := online;
      Refresh();
    }

    method SetSmtp(online: bool)
      modifies this
      ensures Snapshot() == Set(old(Snapshot()), Smtp(online))
    {
      smtpUp := online;
      Refresh();
    }

    method Refresh()
      modifies this`last, this`log
      ensures Snapshot() == Update(old(Snapshot()))
    {
      var combined := imapUp && smtpUp;
      if combined != last {
        last := combined;
        log := log + [combined];
      }
    }
  }

  function After(sigs: seq<Signal>): State
    decreases |sigs|
  {
    if sigs == [] then START else Set(After(sigs[..|sigs| - 1]), sigs[|sigs| - 1])
  }

  /** The latest value of each signal, read off the history alone. */
  function LastImap(sigs: seq<Signal>): bool {
    if sigs == [] then false
    else match sigs[|sigs| - 1] case Imap(b) => b case Smtp(_) => LastImap(sigs[..|sigs| - 1])
  }

  function LastSmtp(sigs: seq<Signal>): bool {
    if sigs == [] then false
    else match sigs[|sigs| - 1] case Smtp(b) => b case Imap(_) => LastSmtp(sigs[..|sigs| - 1])
  }

  /** The stream of combined values, one for each point of the history. */
  function Stream(sigs: seq<Signal>): (r: seq<bool>)
    ensures |r| == |sigs| + 1
  {
    seq(|sigs| + 1, i requires 0 <= i <= |sigs| => LastImap(sigs[..i]) && LastSmtp(sigs[..i]))
  }

  /** A stream with its repetitions removed. */
  function Destutter(s: seq<bool>): seq<bool> {
    if |s| <= 1 then s
    else if s[|s| - 1] == s[|s| - 2] then Destutter(s[..|s| - 1])
    else Destutter(s[..|s| - 1]) + [s[|s| - 1]]
  }

  predicate Alternates(s: seq<bool>) { forall i :: 0 <= i < |s| - 1 ==> s[i] != s[i + 1] }

  lemma {:induction false} DestutterFacts(s: seq<bool>)
    requires s != []
    ensures var d := Destutter(s);
            d != [] && Alternates(d) && d[0] == s[0] && d[|d| - 1] == s[|s| - 1]
  {
    if |s| > 1 { DestutterFacts(s[..|s| - 1]); }
  }

  lemma StreamSnoc(sigs: seq<Signal>)
    requires sigs != []
    ensures var prior := sigs[..|sigs| - 1];
            Stream(sigs) == Stream(prior) + [LastImap(sigs) && LastSmtp(sigs)]
  {
    var prior := sigs[..|sigs| - 1];
    assert sigs[..|sigs|] == sigs;
    assert forall i :: 0 <= i <= |prior| ==> sigs[..i] == prior[..i];
  }

  /** For every interleaving of signals the callback log is the stutter-free form of the
      combined stream; so it starts offline, strictly alternates, and ends in the current
      combined state. */
  lemma {:induction false} LogIsDestutteredStream(sigs: seq<Signal>)
    ensures var s := After(sigs);
            && s.imapUp == LastImap(sigs) && s.smtpUp == LastSmtp(sigs) && s.last == (s.imapUp && s.smtpUp)
            && s.log == Destutter(Stream(sigs))
            && s.log != [] && s.log[0] == false && Alternates(s.log)
            && s.log[|s.log| - 1] == (LastImap(sigs) && LastSmtp(sigs))
    decreases |sigs|
  {
    if sigs == [] {
      assert Stream(sigs) == [false];
    } else {
      var prior := sigs[..|sigs| - 1];
      LogIsDestutteredStream(prior);
      StreamSnoc(sigs);
      var t := Stream(sigs);
      assert t[..|t| - 1] == Stream(prior);
      assert prior[..|prior|] == prior;
      assert t[|t| - 2] == (LastImap(prior) && LastSmtp(prior));
      DestutterFacts(t);
      assert t[0] == false by { assert sigs[..0] == []; }
    }
  }
}
