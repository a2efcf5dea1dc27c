/** The checkpoint file: one record, replaced atomically, keyed by folder and UIDVALIDITY. */
module Checkpoint {
  import opened Octets

  /** Unique identifiers and UIDVALIDITY values are unsigned 32-bit numbers. */
  const UID_LIMIT := 0x1_0000_0000
  type Uid = n: nat | n < UID_LIMIT

  datatype Record = Record(folder: Bytes, validity: Uid, lastUid: Uid)
  datatype Disk = Missing | Corrupt | Stored(record: Record)

  /** What the file system does to one call. */
  datatype Fault = Fine | ReadFails | SaveFails

  /** A missing or corrupt file counts as the empty record. */
  function Loaded(disk: Disk): Record {
    match disk
    case Stored(r) => r
    case _ => Record([], 0, 0)
  }

  predicate Keyed(r: Record, folder: Bytes, validity: Uid) {
    r.folder == folder && r.validity == validity
  }

  function Lookup(disk: Disk, folder: Bytes, validity: Uid): Uid {
    if Keyed(Loaded(disk), folder, validity) then Loaded(disk).lastUid else 0
  }

  function Advanced(disk: Disk, folder: Bytes, validity: Uid, uid: Uid): Disk {
    var r := Loaded(disk);
    Stored(if !Keyed(r, folder, validity) then Record(folder, validity, uid)
           else if uid > r.lastUid then r.(lastUid := uid) else r)
  }

  class JsonRepo {
    var file: Disk

    constructor (disk: Disk)
      ensures file == disk
    {
      file := disk;
    }

    method Load(fault: Fault) returns (cp: Option<Record>)
      ensures cp == if fault == ReadFails then None else Some(Loaded(file))
    {
      if fault == ReadFails { return None; }
      match file {
        case Missing => return Some(Record([], 0, 0));
        case Corrupt => return Some(Record([], 0, 0));
        case Stored(r) => return Some(r);
      }
    }

    /** Writing to a temporary file and renaming it: all of the record or none of it. */
    method Save(cp: Record, fault: Fault) returns (ok: bool)
      modifies this
      ensures ok <==> fault != SaveFails
      ensures file == if ok then Stored(cp) else old(file)
    {
      if fault == SaveFails { return false; }
      file := Stored(cp);
      return true;
    }

    method GetCheckpoint(folder: Bytes, validity: Uid, fault: Fault) returns (uid: Option<Uid>)
      ensures uid == if fault == ReadFails then None else Some(Lookup(file, folder, validity))
    {
      var cp := Load(fault);
      if cp.None? { return None; }
      if cp.value.folder != folder || cp.value.validity != validity { return Some(0); }
      return Some(cp.value.lastUid);
    }

    /** Success raises the watermark of this key to at least uid; failure changes nothing. */
    method AdvanceCheckpoint(folder: Bytes, validity: Uid, uid: Uid, fault: Fault) returns (ok: bool)
      modifies this
      ensures ok <==> fault == Fine
      ensures file == if ok then Advanced(old(file), folder, validity, uid) else old(file)
      ensures ok ==> Lookup(file, folder, validity) >= uid
    {
      var loaded := Load(fault);
      if loaded.None? { return false; }
      var cp := loaded.value;
      if cp.folder != folder || cp.validity != validity {
        cp := Record(folder, validity, uid);
      } else if uid > cp.lastUid {
        cp := cp.(lastUid := uid);
      }
      ok := Save(cp, fault);
    }
  }

  /* ---- Whole histories ---- */

  datatype Call = Call(folder: Bytes, validity: Uid, uid: Uid, fault: Fault)

  function After(disk: Disk, calls: seq<Call>): Disk
    decreases |calls|
  {
    if calls == [] then disk
    else
      var prior := After(disk, calls[..|calls| - 1]);
      var c := calls[|calls| - 1];
      if c.fault == Fine then Advanced(prior, c.folder, c.validity, c.uid) else prior
  }

  function Successes(calls: seq<Call>): (r: seq<Call>)
    ensures forall i :: 0 <= i < |r| ==> r[i].fault == Fine
  {
    if calls == [] then []
    else
      var prior := Successes(calls[..|calls| - 1]);
      var c := calls[|calls| - 1];
      if c.fault == Fine then prior + [c] else prior
  }

  predicate SameKey(a: Call, b: Call) { a.folder == b.folder && a.validity == b.validity }

  /** The calls from i on share the last call's key, the one before i does not, and r is that
      key with their largest uid. */
  ghost predicate GenerationFrom(s: seq<Call>, i: nat, r: Record) {
    && i < |s|
    && var last := s[|s| - 1];
    && r.folder == last.folder && r.validity == last.validity
    && (i > 0 ==> !SameKey(s[i - 1], last))
    && (forall j :: i <= j < |s| ==> SameKey(s[j], last) && s[j].uid <= r.lastUid)
    && (exists j :: i <= j < |s| && s[j].uid == r.lastUid)
  }

  /** r is the maximum of the successful calls since the last change of key. */
  ghost predicate IsGenerationMax(s: seq<Call>, r: Record) {
    exists i: nat :: GenerationFrom(s, i, r)
  }

  lemma GenerationMaxSnoc(s: seq<Call>, r: Record, c: Call)
    requires IsGenerationMax(s, r)
    ensures Keyed(r, c.folder, c.validity) ==>
              IsGenerationMax(s + [c], if c.uid > r.lastUid then r.(lastUid := c.uid) else r)
    ensures !Keyed(r, c.folder, c.validity) ==>
              IsGenerationMax(s + [c], Record(c.folder, c.validity, c.uid))
  {
    var t, n := s + [c], |s|;
    assert t[n] == c && forall j :: 0 <= j < n ==> t[j] == s[j];
    var i: nat :| GenerationFrom(s, i, r);
    if Keyed(r, c.folder, c.validity) {
      var j :| i <= j < n && s[j].uid == r.lastUid;
      var r' := if c.uid > r.lastUid then r.(lastUid := c.uid) else r;
      assert t[if c.uid > r.lastUid then n else j].uid == r'.lastUid;
      assert GenerationFrom(t, i, r');
    } else {
      assert !SameKey(t[n - 1], c);
      assert GenerationFrom(t, n, Record(c.folder, c.validity, c.uid));
    }
  }

  /** The store refines a per-generation maximum: after any mix of advances, failures and key
      changes, the file holds the maximum of the successes since the last key change. */
  lemma {:induction false} StoreIsGenerationMax(calls: seq<Call>)
    ensures var disk := After(Missing, calls);
            if Successes(calls) == [] then disk == Missing
            else disk.Stored? && IsGenerationMax(Successes(calls), disk.record)
    decreases |calls|
  {
    if calls != [] {
      var prior, c := calls[..|calls| - 1], calls[|calls| - 1];
      StoreIsGenerationMax(prior);
      if c.fault == Fine {
        var s := Successes(prior);
        if s == [] {
          var r := After(Missing, calls).record;
          assert [c][0].uid == r.lastUid && s + [c] == [c];
          assert GenerationFrom([c], 0, r);
        } else {
          GenerationMaxSnoc(s, After(Missing, prior).record, c);
        }
      }
    }
  }

  /** From any file, the watermark of a key never regresses while the key is not changed. */
  lemma {:induction false} NeverRegresses(disk: Disk, calls: seq<Call>, folder: Bytes, validity: Uid)
    requires forall i :: 0 <= i < |calls| && calls[i].fault == Fine ==>
                           calls[i].folder == folder && calls[i].validity == validity
    ensures Lookup(After(disk, calls), folder, validity) >= Lookup(disk, folder, validity)
    ensures (forall i :: 0 <= i < |calls| ==> calls[i].fault != Fine) ==> After(disk, calls) == disk
    decreases |calls|
  {
    if calls != [] {
      var prior := calls[..|calls| - 1];
      NeverRegresses(disk, prior, folder, validity);
    }
  }
}
