/** The server's mailbox and the two cleanup operations of the client: STORE and UID EXPUNGE
    (section 2.1 of RFC 4315), MOVE (RFC 6851), and COPY as its stand-in. */
module Mailbox {
  import opened Octets
  import opened Checkpoint

  datatype Message = Message(raw: Bytes, deleted: bool)
  type Box = map<Uid, Message>

  /** How the server answers one command.  A command that fails, or whose answer is lost, may
      still have reached any of the messages it names. */
  datatype Answer = Done | Failed(reached: set<Uid>)

  function Reach(a: Answer, uids: set<Uid>): set<Uid> {
    match a
    case Done => uids
    case Failed(reached) => uids * reached
  }

  /** A failed command may have reached any part of what it names, and nothing else. */
  lemma AnyPartMayBeReached(uids: set<Uid>, part: set<Uid>)
    ensures (exists a: Answer :: a.Failed? && Reach(a, uids) == part) <==> part <= uids
    ensures Reach(Done, uids) == uids
  {
    if part <= uids {
      var a := Failed(part);
      assert Reach(a, uids) == part;
    }
  }

  /** How the server answers a COPY, which it carries out for all messages or for none (section
      6.4.7 of RFC 3501).  One that fails may have been carried out, with its answer lost. */
  datatype CopyAnswer = Copied | CopyFailed(kept: bool)

  predicate CarriedOut(a: CopyAnswer) { a.Copied? || a.kept }

  function Flag(box: Box, uids: set<Uid>): Box {
    map u | u in box :: if u in uids then box[u].(deleted := true) else box[u]
  }

  /** UID EXPUNGE removes a named message only if it is flagged. */
  function Expunge(box: Box, uids: set<Uid>): Box {
    map u | u in box && !(u in uids && box[u].deleted) :: box[u]
  }

  /** The messages named by uids that are in the box, in that order. */
  function Copies(box: Box, uids: seq<Uid>, reach: set<Uid>): seq<Bytes> {
    if uids == [] then []
    else if uids[0] in box && uids[0] in reach then [box[uids[0]].raw] + Copies(box, uids[1..], reach)
    else Copies(box, uids[1..], reach)
  }

  class Server {
    var box: Box
    var archive: seq<Bytes>

    constructor (box: Box)
      ensures this.box == box && archive == []
    {
      this.box := box;
      archive := [];
    }

    method StoreDeleted(uids: set<Uid>, a: Answer) returns (ok: bool)
      modifies this`box
      ensures ok == a.Done?
      ensures box == Flag(old(box), Reach(a, uids))
    {
      box := Flag(box, Reach(a, uids));
      return a.Done?;
    }

    method UidExpunge(uids: set<Uid>, a: Answer) returns (ok: bool)
      modifies this`box
      ensures ok == a.Done?
      ensures box == Expunge(old(box), Reach(a, uids))
    {
      box := Expunge(box, Reach(a, uids));
      return a.Done?;
    }

    method Copy(uids: seq<Uid>, a: CopyAnswer) returns (ok: bool)
      modifies this`archive
      ensures ok == a.Copied?
      ensures archive == old(archive) + if CarriedOut(a) then Copies(box, uids, set u | u in uids) else []
    {
      match a {
        case Copied => archive := archive + Copies(box, uids, set u | u in uids);
        case CopyFailed(kept) => if kept { archive := archive + Copies(box, uids, set u | u in uids); }
      }
      return a.Copied?;
    }

    method Move(uids: seq<Uid>, a: Answer) returns (ok: bool)
      modifies this
      ensures ok == a.Done?
      ensures var reach := Reach(a, set u | u in uids);
              box == old(box) - reach && archive == old(archive) + Copies(old(box), uids, reach)
    {
      var reach := Reach(a, set u | u in uids);
      archive := archive + Copies(box, uids, reach);
      box := box - reach;
      return a.Done?;
    }
  }

  datatype Caps = Caps(uidPlus: bool, move: bool)

  /** The server's answers to the commands one cleanup may send. */
  datatype Answers = Answers(store: Answer, expunge: Answer, copy: CopyAnswer, move: Answer)

  datatype CleanupError = NoUidPlus | UnsafeMove | CommandFailed

  function UidSet(uids: seq<Uid>): set<Uid> { set u | u in uids }

  method UidsToSet(uids: seq<Uid>) returns (s: set<Uid>)
    ensures s == UidSet(uids)
  {
    s := {};
    for i := 0 to |uids|
      invariant s == set u | u in uids[..i]
    {
      s := s + {uids[i]};
      assert uids[..i + 1] == uids[..i] + [uids[i]];
    }
    assert uids[..|uids|] == uids;
  }

  lemma {:induction false} CopiedIsThere(box: Box, uids: seq<Uid>, reach: set<Uid>, u: Uid)
    requires u in box && u in uids && u in reach
    ensures box[u].raw in Copies(box, uids, reach)
  {
    if u != uids[0] { CopiedIsThere(box, uids[1..], reach, u); }
  }

  /** Messages are copied in the order in which they are named, each as it is. */
  lemma {:induction false} CopiesInOrder(box: Box, a: seq<Uid>, u: Uid, b: seq<Uid>, reach: set<Uid>)
    ensures Copies(box, a + [u] + b, reach) ==
            Copies(box, a, reach) + (if u in box && u in reach then [box[u].raw] else []) + Copies(box, b, reach)
  {
    if a == [] {
      assert a + [u] + b == [u] + b && ([u] + b)[1..] == b;
    } else {
      assert (a + [u] + b)[1..] == a[1..] + [u] + b;
      CopiesInOrder(box, a[1..], u, b, reach);
    }
  }

  /** The mailbox after a delete, which stops at its first failure. */
  function DeletedBox(box: Box, caps: Caps, uids: seq<Uid>, a: Answers): Box {
    if uids == [] || !caps.uidPlus then box
    else
      var flagged := Flag(box, Reach(a.store, UidSet(uids)));
      if a.store.Done? then Expunge(flagged, Reach(a.expunge, UidSet(uids))) else flagged
  }

  method DeleteUids(server: Server, caps: Caps, uids: seq<Uid>, a: Answers) returns (err: Option<CleanupError>)
    modifies server`box
    ensures server.box == DeletedBox(old(server.box), caps, uids, a)
    ensures err == if uids == [] then None
                   else if !caps.uidPlus then Some(NoUidPlus)
                   else if a.store.Done? && a.expunge.Done? then None
                   else Some(CommandFailed)
  {
    if |uids| == 0 { return None; }
    if !caps.uidPlus { return Some(NoUidPlus); }
    var uidSet := UidsToSet(uids);
    var stored := server.StoreDeleted(uidSet, a.store);
    if !stored { return Some(CommandFailed); }
    var expunged := server.UidExpunge(uidSet, a.expunge);
    if !expunged { return Some(CommandFailed); }
    return None;
  }

  /** The mailbox after a move.  Without MOVE the client library sends COPY, STORE and UID
      EXPUNGE in one go, so each of them may fail on its own. */
  function MovedBox(box: Box, caps: Caps, uids: seq<Uid>, a: Answers): Box {
    if uids == [] || (!caps.move && !caps.uidPlus) then box
    else if caps.move then box - Reach(a.move, UidSet(uids))
    else Expunge(Flag(box, Reach(a.store, UidSet(uids))), Reach(a.expunge, UidSet(uids)))
  }

  /** What a move adds to the archive. */
  function MovedMail(box: Box, caps: Caps, uids: seq<Uid>, a: Answers): seq<Bytes> {
    if uids == [] || (!caps.move && !caps.uidPlus) then []
    else if caps.move then Copies(box, uids, Reach(a.move, UidSet(uids)))
    else if CarriedOut(a.copy) then Copies(box, uids, UidSet(uids))
    else []
  }

  method MoveUids(server: Server, caps: Caps, uids: seq<Uid>, a: Answers) returns (err: Option<CleanupError>)
    modifies server
    ensures server.box == MovedBox(old(server.box), caps, uids, a)
    ensures server.archive == old(server.archive) + MovedMail(old(server.box), caps, uids, a)
    ensures err == if uids == [] then None
                   else if !caps.move && !caps.uidPlus then Some(UnsafeMove)
                   else if caps.move then (if a.move.Done? then None else Some(CommandFailed))
                   else if a.copy.Copied? && a.store.Done? && a.expunge.Done? then None
                   else Some(CommandFailed)
  {
    if |uids| == 0 { return None; }
    if !caps.move && !caps.uidPlus { return Some(UnsafeMove); }
    var uidSet := UidsToSet(uids);
    if caps.move {
      var moved := server.Move(uids, a.move);
      return if moved then None else Some(CommandFailed);
    }
    var copied := server.Copy(uids, a.copy);
    var stored := server.StoreDeleted(uidSet, a.store);
    var expunged := server.UidExpunge(uidSet, a.expunge);
    return if copied && stored && expunged then None else Some(CommandFailed);
  }

  /** Every message that a move with these answers removes is in the archive. */
  predicate KeepsRemoved(box: Box, caps: Caps, uids: seq<Uid>, a: Answers) {
    forall u :: u in box && u !in MovedBox(box, caps, uids, a) ==> box[u].raw in MovedMail(box, caps, uids, a)
  }

  /** A removed message is in the archive exactly if MOVE was used or the COPY carried out. */
  lemma RemovedIsArchived(box: Box, caps: Caps, uids: seq<Uid>, a: Answers, u: Uid)
    requires u in box && u !in MovedBox(box, caps, uids, a)
    ensures box[u].raw in MovedMail(box, caps, uids, a) <==> caps.move || CarriedOut(a.copy)
  {
    if caps.move {
      CopiedIsThere(box, uids, Reach(a.move, UidSet(uids)), u);
    } else if CarriedOut(a.copy) {
      CopiedIsThere(box, uids, UidSet(uids), u);
    }
  }

  /** What the caller can check beforehand: a move is safe against every behaviour of the
      server exactly if MOVE is offered, or nothing would be sent, or no message is named that
      exists. */
  lemma MoveIsSafeIff(box: Box, caps: Caps, uids: seq<Uid>)
    ensures (forall a :: KeepsRemoved(box, caps, uids, a))
            <==> caps.move || !caps.uidPlus || forall u :: u in uids ==> u !in box
  {
    if caps.move || !caps.uidPlus || forall u :: u in uids ==> u !in box {
      forall a ensures KeepsRemoved(box, caps, uids, a) {
        forall u | u in box && u !in MovedBox(box, caps, uids, a) ensures box[u].raw in MovedMail(box, caps, uids, a) {
          RemovedIsArchived(box, caps, uids, a, u);
        }
      }
    } else {
      var u :| u in uids && u in box;
      var a := Answers(Done, Done, CopyFailed(false), Done);
      assert u !in MovedBox(box, caps, uids, a);
      assert !KeepsRemoved(box, caps, uids, a);
    }
  }

  /** Nothing outside uids appears, disappears or changes a flag, and nothing changes content. */
  ghost predicate OnlyTouches(before: Box, after: Box, uids: set<Uid>) {
    && after.Keys <= before.Keys
    && (forall u :: u in before && u !in uids ==> u in after && after[u] == before[u])
    && (forall u :: u in after ==> after[u].raw == before[u].raw)
    && (forall u :: u in after && before[u].deleted ==> after[u].deleted)
  }

  datatype Mode = KeepMail | DeleteMail | MoveMail

  /** What is in the mailbox after cleanup, for every answer of the server. */
  function CleanedBox(box: Box, caps: Caps, mode: Mode, uids: seq<Uid>, a: Answers): Box {
    match mode
    case KeepMail => box
    case DeleteMail => DeletedBox(box, caps, uids, a)
    case MoveMail => MovedBox(box, caps, uids, a)
  }

  /** What cleanup adds to the archive. */
  function CleanedMail(box: Box, caps: Caps, mode: Mode, uids: seq<Uid>, a: Answers): seq<Bytes> {
    if mode == MoveMail then MovedMail(box, caps, uids, a) else []
  }

  /** One message under cleanup: whether it stays, and whether it is flagged, read off the
      answers of the server. */
  lemma CleanedMessage(box: Box, caps: Caps, mode: Mode, uids: seq<Uid>, a: Answers, u: Uid)
    requires u in box
    ensures var after := CleanedBox(box, caps, mode, uids, a);
            var flagged := box[u].deleted || u in Reach(a.store, UidSet(uids));
            if u !in uids || mode == KeepMail || (!caps.uidPlus && (mode == DeleteMail || !caps.move)) then
              u in after && after[u] == box[u]
            else if mode == MoveMail && caps.move then
              u in Reach(a.move, UidSet(uids)) <==> u !in after
            else
              && (u !in after <==> flagged && u in Reach(a.expunge, UidSet(uids)) && (mode == MoveMail || a.store.Done?))
              && (u in after ==> after[u] == box[u].(deleted := flagged))
  {
  }

  /** Best-effort cleanup: errors are swallowed. */
  method Cleanup(server: Server, caps: Caps, mode: Mode, uids: seq<Uid>, a: Answers)
    modifies server
    ensures OnlyTouches(old(server.box), server.box, UidSet(uids))
    ensures exists reach :: reach <= UidSet(uids) &&
                            server.archive == old(server.archive) + Copies(old(server.box), uids, reach)
    ensures mode == KeepMail || (mode == DeleteMail && !caps.uidPlus)
            || (mode == MoveMail && !caps.move && !caps.uidPlus) ==>
              server.box == old(server.box) && server.archive == old(server.archive)
    ensures mode == DeleteMail ==> server.archive == old(server.archive)
    ensures server.box == CleanedBox(old(server.box), caps, mode, uids, a)
    ensures server.archive == old(server.archive) + CleanedMail(old(server.box), caps, mode, uids, a)
    ensures a == Answers(Done, Done, Copied, Done) && mode != KeepMail && (caps.uidPlus || (mode == MoveMail && caps.move)) ==>
              server.box == old(server.box) - UidSet(uids)
              && (mode == MoveMail ==> server.archive == old(server.archive) + Copies(old(server.box), uids, UidSet(uids)))
  {
    NoCopies(server.box, uids);
    assert server.archive == server.archive + Copies(server.box, uids, {});
    match mode {
      case KeepMail =>
      case DeleteMail =>
        var err := DeleteUids(server, caps, uids, a);
      case MoveMail =>
        var err := MoveUids(server, caps, uids, a);
        assert Reach(a.move, UidSet(uids)) <= UidSet(uids);
        assert UidSet(uids) <= UidSet(uids);
    }
  }

  lemma {:induction false} NoCopies(box: Box, uids: seq<Uid>)
    ensures Copies(box, uids, {}) == []
  {
    if uids != [] { NoCopies(box, uids[1..]); }
  }
}
