/** How one fetch is judged: the class of each message, the handler's tally, and the watermark
    that the tally allows. */
module Inbound {
  import opened Octets
  import opened Checkpoint
  import Envelope

  datatype Config = Config(lib: Envelope.Library, peer: Bytes, local: Bytes, folder: Bytes)

  /** The three classes of inbound mail. */
  datatype Kind = NotOurs | Broken | Ours(packet: Bytes)

  /** Display name stripped, domain in lower case, local part as it is. */
  function CanonicalAddr(lib: Envelope.Library, addr: Bytes): Bytes {
    var bare := Envelope.Bare(lib, addr);
    match Envelope.LastIndex(bare, '@')
    case None => bare
    case Some(at) => bare[..at + 1] + LowerAll(bare[at + 1..])
  }

  function KindOf(cfg: Config, raw: Bytes): Kind {
    match Envelope.Decode(cfg.lib, raw)
    case NotTransport => NotOurs
    case Broken => Broken
    case Valid(d) =>
      if cfg.peer != [] && CanonicalAddr(cfg.lib, d.from) != CanonicalAddr(cfg.lib, cfg.peer) then NotOurs
      else if cfg.local != [] && CanonicalAddr(cfg.lib, d.to) != CanonicalAddr(cfg.lib, cfg.local) then NotOurs
      else Ours(d.packet)
  }

  /** What the fetch closure accumulates; zero means no failure. */
  datatype Tally = Tally(processed: seq<Uid>, skipped: seq<Uid>, failed: Uid, decodeFailed: Uid)

  const EMPTY := Tally([], [], 0, 0)

  /** The surroundings of one handler call: cancellation, and the answer of the pipe. */
  datatype Env = Env(cancelled: bool, injectOk: bool)

  /** The handler's effect: the new tally, the packet the pipe accepted, and its error. */
  datatype Handled = Handled(tally: Tally, accepted: Option<Bytes>, err: bool)

  function Handle(kind: Kind, t: Tally, uid: Uid, env: Env): Handled {
    if env.cancelled then Handled(t, None, true)
    else
      match kind
      case NotOurs => Handled(t.(skipped := t.skipped + [uid]), None, false)
      case Broken =>
        Handled(if t.decodeFailed == 0 || uid < t.decodeFailed then t.(decodeFailed := uid) else t, None, false)
      case Ours(packet) =>
        if env.injectOk then Handled(t.(processed := t.processed + [uid]), Some(packet), false)
        else Handled(t.(failed := uid), None, true)
  }

  /** The lowest failed UID, which the checkpoint must not pass; zero for none. */
  function Ceiling(t: Tally): Uid {
    if t.failed > 0 && t.decodeFailed > 0 then
      (if t.failed < t.decodeFailed then t.failed else t.decodeFailed)
    else if t.failed > 0 then t.failed
    else t.decodeFailed
  }

  predicate Allowed(uid: Uid, ceiling: Uid) { ceiling == 0 || uid <= ceiling }

  /** The largest allowed UID, or lastUid: no sorting, no early exit. */
  function Watermark(lastUid: Uid, uids: seq<Uid>, ceiling: Uid): (m: Uid)
    ensures m >= lastUid
    ensures m == lastUid || (m in uids && Allowed(m, ceiling))
    ensures forall u :: u in uids && Allowed(u, ceiling) ==> u <= m
  {
    if uids == [] then lastUid
    else
      var m := Watermark(lastUid, uids[1..], ceiling);
      if Allowed(uids[0], ceiling) && uids[0] > m then uids[0] else m
  }

  function SafeUid(lastUid: Uid, t: Tally): Uid {
    Watermark(lastUid, t.processed + t.skipped, Ceiling(t))
  }

  /** When the fetch failed for a reason other than an inject failure, nothing it delivered
      may move the checkpoint. */
  predicate Suppressed(t: Tally, err: bool) { err && t.failed == 0 }

  /* ---- The sort-and-scan loop ---- */

  predicate Sorted(s: seq<Uid>) { forall i, j :: 0 <= i < j < |s| ==> s[i] <= s[j] }

  function InsertSorted(s: seq<Uid>, u: Uid): (r: seq<Uid>)
    ensures multiset(r) == multiset(s) + multiset{u}
  {
    if s == [] then [u]
    else if u <= s[0] then [u] + s
    else
      assert s == [s[0]] + s[1..];
      [s[0]] + InsertSorted(s[1..], u)
  }

  /** The ascending order that the library sort produces. */
  function Sort(s: seq<Uid>): (r: seq<Uid>)
    ensures multiset(r) == multiset(s)
  {
    if s == [] then []
    else
      assert s == [s[0]] + s[1..];
      InsertSorted(Sort(s[1..]), s[0])
  }

  lemma PrependSorted(u: Uid, r: seq<Uid>)
    requires Sorted(r) && forall v :: v in multiset(r) ==> u <= v
    ensures Sorted([u] + r)
  {
    forall k | 0 <= k < |r| ensures u <= r[k] {
      assert r[k] in multiset(r);
    }
  }

  lemma {:induction false} InsertKeepsOrder(s: seq<Uid>, u: Uid)
    requires Sorted(s)
    ensures Sorted(InsertSorted(s, u))
  {
    if s != [] {
      var tail := s[1..];
      forall v | v in multiset(tail) ensures s[0] <= v {
        assert v in tail;
      }
      if u > s[0] {
        InsertKeepsOrder(tail, u);
        PrependSorted(s[0], InsertSorted(tail, u));
      } else {
        forall v | v in multiset(s) ensures u <= v {
          assert v in s;
        }
        PrependSorted(u, s);
      }
    }
  }

  lemma {:induction false} SortSorts(s: seq<Uid>)
    ensures Sorted(Sort(s))
  {
    if s != [] {
      SortSorts(s[1..]);
      InsertKeepsOrder(Sort(s[1..]), s[0]);
    }
  }

  lemma SameElements(a: seq<Uid>, b: seq<Uid>)
    requires multiset(a) == multiset(b)
    ensures forall u :: u in a <==> u in b
  {
    forall u ensures u in a <==> u in b {
      assert u in a <==> u in multiset(a);
      assert u in b <==> u in multiset(b);
    }
  }

  /** Merging, sorting and scanning up to the ceiling finds the watermark. */
  method ComputeSafe(lastUid: Uid, t: Tally) returns (safe: Uid)
    ensures safe == SafeUid(lastUid, t)
  {
    var ceiling: Uid;
    if t.failed > 0 && t.decodeFailed > 0 {
      ceiling := if t.failed < t.decodeFailed then t.failed else t.decodeFailed;
    } else if t.failed > 0 {
      ceiling := t.failed;
    } else {
      ceiling := t.decodeFailed;
    }
    ghost var uids := t.processed + t.skipped;
    var advanceable := t.processed + t.skipped;
    safe := lastUid;
    if |advanceable| > 0 {
      SortSorts(advanceable);
      advanceable := Sort(advanceable);
      SameElements(advanceable, uids);
      var n := 0;
      while n < |advanceable|
        invariant 0 <= n <= |advanceable|
        invariant safe >= lastUid
        invariant safe == lastUid || (safe in advanceable && Allowed(safe, ceiling))
        invariant forall k :: 0 <= k < n && Allowed(advanceable[k], ceiling) ==> advanceable[k] <= safe
      {
        var uid := advanceable[n];
        if uid > safe {
          if ceiling > 0 && uid > ceiling {
            break;
          }
          safe := uid;
        }
        n := n + 1;
      }
      assert forall u :: u in uids && Allowed(u, ceiling) ==> u <= safe;
    }
  }

  /** The watermark against its specification: with the delivered UIDs distinct it is the
      largest of lastUid and the processed and skipped UIDs strictly below every failure, and
      without failures the largest UID delivered. */
  lemma WatermarkSpec(lastUid: Uid, t: Tally)
    requires forall u :: u in t.processed + t.skipped ==> u != t.failed && u != t.decodeFailed
    ensures var m := SafeUid(lastUid, t);
            var below := u => (t.failed > 0 ==> u < t.failed) && (t.decodeFailed > 0 ==> u < t.decodeFailed);
            && (m == lastUid || (m > lastUid && m in t.processed + t.skipped && below(m)))
            && (forall u :: u in t.processed + t.skipped && below(u) ==> u <= m)
            && (t.failed == 0 && t.decodeFailed == 0 ==> forall u :: u in t.processed + t.skipped ==> u <= m)
  {
    var m := SafeUid(lastUid, t);
    forall u | u in t.processed + t.skipped && (t.failed > 0 ==> u < t.failed)
               && (t.decodeFailed > 0 ==> u < t.decodeFailed)
      ensures u <= m
    {
      assert Allowed(u, Ceiling(t));
    }
  }

  lemma {:induction false} WatermarkOfElements(lastUid: Uid, a: seq<Uid>, b: seq<Uid>, ceiling: Uid)
    requires forall u :: u in a <==> u in b
    ensures Watermark(lastUid, a, ceiling) == Watermark(lastUid, b, ceiling)
  {
    var m, n := Watermark(lastUid, a, ceiling), Watermark(lastUid, b, ceiling);
    assert m == lastUid || (m in b && Allowed(m, ceiling));
    assert n == lastUid || (n in a && Allowed(n, ceiling));
  }

  /* ---- A whole fetch, as a fold of the handler ---- */

  datatype Mail = Mail(uid: Uid, raw: Bytes)

  /** The handler run over messages that the pipe all accepts. */
  function Tallied(cfg: Config, mails: seq<Mail>): Tally
    decreases |mails|
  {
    if mails == [] then EMPTY
    else
      var m := mails[|mails| - 1];
      Handle(KindOf(cfg, m.raw), Tallied(cfg, mails[..|mails| - 1]), m.uid, Env(false, true)).tally
  }

  /** The packets the pipe accepts from such a run, in order. */
  function Injected(cfg: Config, mails: seq<Mail>): seq<Bytes>
    decreases |mails|
  {
    if mails == [] then []
    else
      var m := mails[|mails| - 1];
      var prior := Injected(cfg, mails[..|mails| - 1]);
      match Handle(KindOf(cfg, m.raw), Tallied(cfg, mails[..|mails| - 1]), m.uid, Env(false, true)).accepted
      case Some(p) => prior + [p]
      case None => prior
  }

  lemma TalliedSnoc(cfg: Config, mails: seq<Mail>)
    requires mails != []
    ensures var m, t := mails[|mails| - 1], Tallied(cfg, mails[..|mails| - 1]);
            Tallied(cfg, mails) ==
            match KindOf(cfg, m.raw)
            case NotOurs => t.(skipped := t.skipped + [m.uid])
            case Broken => if t.decodeFailed == 0 || m.uid < t.decodeFailed then t.(decodeFailed := m.uid) else t
            case Ours(_) => t.(processed := t.processed + [m.uid])
    ensures forall m :: m in mails <==> m in mails[..|mails| - 1] || m == mails[|mails| - 1]
  {
    hide KindOf;
    assert mails == mails[..|mails| - 1] + [mails[|mails| - 1]];
  }

  lemma {:induction false} TalliedTaken(cfg: Config, mails: seq<Mail>)
    ensures var t := Tallied(cfg, mails);
            && t.failed == 0
            && (forall u :: u in t.processed <==> exists m :: m in mails && m.uid == u && KindOf(cfg, m.raw).Ours?)
            && (forall u :: u in t.skipped <==> exists m :: m in mails && m.uid == u && KindOf(cfg, m.raw).NotOurs?)
    decreases |mails|
  {
    hide KindOf;
    if mails != [] {
      TalliedTaken(cfg, mails[..|mails| - 1]);
      TalliedSnoc(cfg, mails);
      hide Tallied;
    }
  }

  lemma {:induction false} TalliedBroken(cfg: Config, mails: seq<Mail>)
    requires forall m :: m in mails ==> m.uid > 0
    ensures var t := Tallied(cfg, mails);
            && (forall m :: m in mails && KindOf(cfg, m.raw).Broken? ==> 0 < t.decodeFailed <= m.uid)
            && (t.decodeFailed > 0 ==> exists m :: m in mails && m.uid == t.decodeFailed && KindOf(cfg, m.raw).Broken?)
    decreases |mails|
  {
    hide KindOf;
    if mails != [] {
      TalliedSnoc(cfg, mails);
      TalliedBroken(cfg, mails[..|mails| - 1]);
      hide Tallied;
    }
  }

  /** The tally, read off the set of messages. */
  lemma TallyContents(cfg: Config, mails: seq<Mail>)
    requires forall m :: m in mails ==> m.uid > 0
    ensures var t := Tallied(cfg, mails);
            && t.failed == 0
            && (forall u :: u in t.processed <==> exists m :: m in mails && m.uid == u && KindOf(cfg, m.raw).Ours?)
            && (forall u :: u in t.skipped <==> exists m :: m in mails && m.uid == u && KindOf(cfg, m.raw).NotOurs?)
            && (forall m :: m in mails && KindOf(cfg, m.raw).Broken? ==> 0 < t.decodeFailed <= m.uid)
            && (t.decodeFailed > 0 ==> exists m :: m in mails && m.uid == t.decodeFailed && KindOf(cfg, m.raw).Broken?)
  {
    TalliedTaken(cfg, mails);
    TalliedBroken(cfg, mails);
    hide KindOf, Tallied;
  }

  /* ---- Delivery order does not matter ---- */

  lemma {:induction false} InjectedConcat(cfg: Config, a: seq<Mail>, b: seq<Mail>)
    ensures Injected(cfg, a + b) == Injected(cfg, a) + Injected(cfg, b)
    decreases |b|
  {
    hide KindOf;
    if b == [] {
      assert a + b == a;
    } else {
      var m, prior := b[|b| - 1], b[..|b| - 1];
      InjectedConcat(cfg, a, prior);
      assert (a + b)[..|a + b| - 1] == a + prior;
      assert (a + b)[|a + b| - 1] == m;
    }
  }

  /** Taking one message out of a delivery takes its packet, if any, out of the injections. */
  lemma InjectedWithout(cfg: Config, l: seq<Mail>, m: Mail, r: seq<Mail>)
    ensures multiset(Injected(cfg, l + [m] + r)) == multiset(Injected(cfg, l + r)) + multiset(Injected(cfg, [m]))
  {
    InjectedConcat(cfg, l + [m], r);
    InjectedConcat(cfg, l, [m]);
    InjectedConcat(cfg, l, r);
    hide Injected;
  }

  lemma WithoutOne<T>(l: seq<T>, m: T, r: seq<T>)
    ensures multiset(l + r) == multiset(l + [m] + r) - multiset{m}
  {
  }

  lemma {:induction false} InjectedPermuted(cfg: Config, a: seq<Mail>, b: seq<Mail>)
    requires multiset(a) == multiset(b)
    ensures multiset(Injected(cfg, a)) == multiset(Injected(cfg, b))
    decreases |a|
  {
    if a == [] {
      assert |b| == |multiset(b)|;
    } else {
      hide Injected;
      var m, prior := a[|a| - 1], a[..|a| - 1];
      assert a == prior + [m] + [];
      assert m in multiset(b);
      var i :| 0 <= i < |b| && b[i] == m;
      var l, r := b[..i], b[i + 1..];
      assert b == l + [m] + r;
      WithoutOne(l, m, r);
      WithoutOne(prior, m, []);
      assert prior + [] == prior;
      InjectedPermuted(cfg, prior, l + r);
      InjectedWithout(cfg, l, m, r);
      InjectedWithout(cfg, prior, m, []);
    }
  }

  /** The processed UIDs that cleanup may touch. */
  function CleanupUids(t: Tally, safe: Uid): (r: seq<Uid>)
    ensures forall u :: u in r <==> u in t.processed && u <= safe
  {
    Below(t.processed, safe)
  }

  function Below(s: seq<Uid>, safe: Uid): (r: seq<Uid>)
    ensures forall u :: u in r <==> u in s && u <= safe
  {
    if s == [] then []
    else if s[|s| - 1] <= safe then Below(s[..|s| - 1], safe) + [s[|s| - 1]]
    else Below(s[..|s| - 1], safe)
  }

  /** Filtering keeps the order: it distributes over concatenation. */
  lemma {:induction false} BelowConcat(a: seq<Uid>, b: seq<Uid>, safe: Uid)
    ensures Below(a + b, safe) == Below(a, safe) + Below(b, safe)
    decreases |b|
  {
    if b == [] {
      assert a + b == a;
    } else {
      var u, t := b[|b| - 1], b[..|b| - 1];
      assert (a + b)[..|a + b| - 1] == a + t && (a + b)[|a + b| - 1] == u;
      BelowConcat(a, t, safe);
      hide Below;
    }
  }

  lemma SameMails(a: seq<Mail>, b: seq<Mail>)
    requires multiset(a) == multiset(b)
    ensures forall m :: m in a <==> m in b
  {
    forall m ensures m in a <==> m in b {
      assert m in a <==> m in multiset(a);
      assert m in b <==> m in multiset(b);
    }
  }

  /** For a completed fetch whose injections all succeed, the new checkpoint, the UIDs cleaned
      up and the multiset of injected packets are the same in every delivery order. */
  lemma OrderIndependence(cfg: Config, lastUid: Uid, a: seq<Mail>, b: seq<Mail>)
    requires multiset(a) == multiset(b) && forall m :: m in a ==> m.uid > 0
    ensures var s, t := Tallied(cfg, a), Tallied(cfg, b);
            && SafeUid(lastUid, s) == SafeUid(lastUid, t)
            && (forall u :: u in CleanupUids(s, SafeUid(lastUid, s)) <==> u in CleanupUids(t, SafeUid(lastUid, t)))
            && multiset(Injected(cfg, a)) == multiset(Injected(cfg, b))
  {
    hide KindOf, Tallied, Watermark;
    SameMails(a, b);
    TallyContents(cfg, a);
    TallyContents(cfg, b);
    var s, t := Tallied(cfg, a), Tallied(cfg, b);
    assert s.decodeFailed == t.decodeFailed;
    WatermarkOfElements(lastUid, s.processed + s.skipped, t.processed + t.skipped, Ceiling(s));
    InjectedPermuted(cfg, a, b);
  }

  /* ---- Addresses ---- */

  function Address(local: Bytes, domain: Bytes): Bytes { local + ['@'] + domain }

  lemma CanonicalForm(lib: Envelope.Library, local: Bytes, domain: Bytes)
    requires '@' !in domain
    requires var a := Address(local, domain); lib.parseAddress(a).Some? ==> lib.parseAddress(a).value == a
    ensures CanonicalAddr(lib, Address(local, domain)) == Address(local, LowerAll(domain))
  {
    var a := Address(local, domain);
    var n := |local|;
    assert a[n] == '@' && forall k :: n < k < |a| ==> a[k] == domain[k - n - 1];
    assert Envelope.LastIndex(a, '@') == Some(n);
    assert a[..n + 1] == local + ['@'] && a[n + 1..] == domain;
  }

  lemma SplitAtLast(l1: Bytes, e1: Bytes, l2: Bytes, e2: Bytes)
    requires '@' !in e1 && '@' !in e2 && Address(l1, e1) == Address(l2, e2)
    ensures l1 == l2 && e1 == e2
  {
    var a, b := Address(l1, e1), Address(l2, e2);
    assert a[|l1|] == '@' && forall k :: |l1| < k < |a| ==> a[k] == e1[k - |l1| - 1];
    assert b[|l2|] == '@' && forall k :: |l2| < k < |b| ==> b[k] == e2[k - |l2| - 1];
    assert |l1| == |l2|;
    assert a[..|l1|] == l1 && b[..|l2|] == l2;
    assert a[|l1| + 1..] == e1 && b[|l2| + 1..] == e2;
  }

  lemma FoldIsLower(a: Bytes, b: Bytes)
    ensures EqualFold(a, b) <==> LowerAll(a) == LowerAll(b)
    ensures '@' !in a ==> '@' !in LowerAll(a)
  {
    if LowerAll(a) == LowerAll(b) {
      assert |a| == |b|;
      assert forall i :: 0 <= i < |a| ==> Lower(a[i]) == LowerAll(a)[i] && Lower(b[i]) == LowerAll(b)[i];
    }
  }

  /** A display name makes no difference, on either side of the comparison. */
  lemma DisplayNameIsIgnored(lib: Envelope.Library, addr: Bytes, bare: Bytes)
    requires lib.parseAddress(addr) == Some(bare) && (lib.parseAddress(bare).Some? ==> lib.parseAddress(bare).value == bare)
    ensures CanonicalAddr(lib, addr) == CanonicalAddr(lib, bare)
  {
  }

  /** Two bare addresses count as the same exactly when their local parts are equal and their
      domains are equal up to letter case (section 2.3.5 of RFC 5321). */
  lemma SameAddressIff(lib: Envelope.Library, l1: Bytes, d1: Bytes, l2: Bytes, d2: Bytes)
    requires '@' !in d1 && '@' !in d2
    requires var a := Address(l1, d1); lib.parseAddress(a).Some? ==> lib.parseAddress(a).value == a
    requires var a := Address(l2, d2); lib.parseAddress(a).Some? ==> lib.parseAddress(a).value == a
    ensures CanonicalAddr(lib, Address(l1, d1)) == CanonicalAddr(lib, Address(l2, d2))
            <==> l1 == l2 && EqualFold(d1, d2)
  {
    CanonicalForm(lib, l1, d1);
    CanonicalForm(lib, l2, d2);
    FoldIsLower(d1, d2);
    FoldIsLower(d2, d1);
    hide EqualFold, LowerAll, Address, CanonicalAddr;
    if Address(l1, LowerAll(d1)) == Address(l2, LowerAll(d2)) {
      SplitAtLast(l1, LowerAll(d1), l2, LowerAll(d2));
    }
  }
}
