/** One SMTP submission: its stages in order, and what its error says about the message. */
module Smtp {
  import opened Octets

  /** The server's answer after the end of the data, and whether it kept the message when the
      answer was lost. */
  datatype Commit = Accepted | Rejected | AnswerLost(kept: bool)

  /** What happens at each stage of a connection; `done` marks a context that has expired. */
  datatype Stages = Stages(doneAtStart: bool, dialOk: bool, tlsOk: bool, doneAfterDial: bool, authOk: bool,
                           doneAfterAuth: bool, mailOk: bool, rcptOk: bool, dataOk: bool, writeOk: bool,
                           commit: Commit)

  datatype SendError = Failed | OutcomeUnknown

  predicate Connects(st: Stages, startTls: bool) {
    !st.doneAtStart && st.dialOk && (startTls ==> st.tlsOk) && !st.doneAfterDial && st.authOk
  }

  /** The message text and its final dot went out. */
  predicate Submits(st: Stages, startTls: bool) {
    Connects(st, startTls) && !st.doneAfterAuth && st.mailOk && st.rcptOk && st.dataOk && st.writeOk
  }

  function SendResult(st: Stages, startTls: bool): Option<SendError> {
    if !Submits(st, startTls) || st.commit.Rejected? then Some(Failed)
    else if st.commit.Accepted? then None
    else Some(OutcomeUnknown)
  }

  /** The server keeps the message: with its answer, or with the answer lost on the way. */
  predicate Keeps(st: Stages, startTls: bool) {
    Submits(st, startTls) && (st.commit.Accepted? || st.commit == AnswerLost(true))
  }

  /** The conversation as a list: what must go well, in the order in which it happens, up to
      the end of the message text. */
  function Conversation(st: Stages, startTls: bool): (c: seq<bool>)
    ensures |c| == 10
  {
    [ !st.doneAtStart, st.dialOk, !startTls || st.tlsOk, !st.doneAfterDial, st.authOk,
      !st.doneAfterAuth, st.mailOk, st.rcptOk, st.dataOk, st.writeOk ]
  }

  /** Every stage counts: a connection needs the first five, a submission all ten; the relay
      keeps nothing, and no outcome but plain failure is reported, if any of them went wrong. */
  lemma EveryStageCounts(st: Stages, startTls: bool)
    ensures var c := Conversation(st, startTls);
            && (Connects(st, startTls) <==> forall i :: 0 <= i < 5 ==> c[i])
            && (Submits(st, startTls) <==> forall i :: 0 <= i < 10 ==> c[i])
            && ((exists i :: 0 <= i < 10 && !c[i]) ==> SendResult(st, startTls) == Some(Failed) && !Keeps(st, startTls))
            && ((forall i :: 0 <= i < 10 ==> c[i]) ==>
                  SendResult(st, startTls) == match st.commit case Accepted => None
                                                             case Rejected => Some(Failed)
                                                             case AnswerLost(_) => Some(OutcomeUnknown))
  {
    var c := Conversation(st, startTls);
    assert c[0] && c[1] && c[2] && c[3] && c[4] <==> Connects(st, startTls);
    assert c[5] && c[6] && c[7] && c[8] && c[9] && Connects(st, startTls) <==> Submits(st, startTls);
  }

  /** The relay; `mail` is every message it has accepted for delivery. */
  class Relay {
    var mail: seq<Bytes>
    const startTls: bool

    constructor (startTls: bool)
      ensures mail == [] && this.startTls == startTls
    {
      mail := [];
      this.startTls := startTls;
    }

    method EndData(msg: Bytes, commit: Commit)
      modifies this
      ensures mail == old(mail) + if commit.Accepted? || commit == AnswerLost(true) then [msg] else []
    {
      match commit {
        case Accepted => mail := mail + [msg];
        case Rejected =>
        case AnswerLost(kept) => if kept { mail := mail + [msg]; }
      }
    }
  }

  method Connect(relay: Relay, st: Stages) returns (ok: bool)
    ensures ok == Connects(st, relay.startTls)
  {
    if st.doneAtStart { return false; }
    if !st.dialOk { return false; }
    if relay.startTls {
      if !st.tlsOk { return false; }
    }
    if st.doneAfterDial { return false; }
    if !st.authOk { return false; }
    return true;
  }

  /** A plain failure is certain: the server did not keep the message.  Only a lost answer
      leaves that open, and then the error says so. */
  method Send(relay: Relay, msg: Bytes, st: Stages) returns (err: Option<SendError>)
    modifies relay
    ensures err == SendResult(st, relay.startTls)
    ensures relay.mail == old(relay.mail) + if Keeps(st, relay.startTls) then [msg] else []
    ensures err == Some(Failed) ==> relay.mail == old(relay.mail)
    ensures err == None ==> relay.mail == old(relay.mail) + [msg]
  {
    var ok := Connect(relay, st);
    if !ok { return Some(Failed); }
    if st.doneAfterAuth { return Some(Failed); }
    if !st.mailOk { return Some(Failed); }
    if !st.rcptOk { return Some(Failed); }
    if !st.dataOk { return Some(Failed); }
    if !st.writeOk { return Some(Failed); }
    relay.EndData(msg, st.commit);
    match st.commit {
      case Accepted => return None;
      case Rejected => return Some(Failed);
      case AnswerLost(_) => return Some(OutcomeUnknown);
    }
  }

  /** A probe connects and quits: it delivers nothing. */
  method Probe(relay: Relay, st: Stages) returns (ok: bool)
    ensures ok == Connects(st, relay.startTls)
    ensures relay.mail == old(relay.mail)
  {
    ok := Connect(relay, st);
  }

  /** What the client sees is the same, but for a message kept or dropped without an answer. */
  predicate LooksLike(a: Stages, b: Stages) {
    a == b.(commit := a.commit) && (a.commit == b.commit || (a.commit.AnswerLost? && b.commit.AnswerLost?))
  }

  /** The error classes are exact: "unknown" is reported just when two servers that the client
      cannot tell apart would differ on whether they kept the message. */
  lemma UnknownIffUndecidable(st: Stages, startTls: bool)
    ensures SendResult(st, startTls) == Some(OutcomeUnknown)
            <==> exists other :: LooksLike(st, other) && Keeps(st, startTls) != Keeps(other, startTls)
    ensures SendResult(st, startTls) == None
            <==> forall other :: LooksLike(st, other) ==> Keeps(other, startTls)
  {
    if st.commit.AnswerLost? {
      var other := st.(commit := AnswerLost(!st.commit.kept));
      assert LooksLike(st, other);
    }
    assert LooksLike(st, st);
  }
}
