/** SMTP health as a step system: any number of packet threads, the startup probe and the
    recovery tasks share one flag and one aggregator, and every atomic action is a step. */
module Recovery {
  import Agg = Aggregator

  /** Where a thread is.  A holder owns the flag: it has won the compare-and-swap and has not
      yet cleared the flag. */
  datatype Pc =
    | Sending                 // a packet thread in its retry loop
    | Probing                 // the startup probe, in flight
    | ProbeOk                 // the startup probe succeeded; about to signal online
    | MustRecover(startup: bool)  // about to begin recovery
    | WonFlag                 // won the compare-and-swap; about to signal offline
    | Spawning                // about to start the recovery task
    | Waiting                 // the recovery task, before or in a probe
    | Recovered               // its probe succeeded; about to signal online
    | Releasing               // about to clear the flag
    | Finished

  datatype State = State(enabled: bool, threads: map<nat, Pc>, flag: bool, agg: Agg.State, cancelled: bool)

  datatype Event =
    | NewPacket(t: nat)
    | PacketEnds(t: nat, recover: bool)
    | StartupEnds(t: nat, ok: bool)
    | StartupSignals(t: nat)
    | TryFlag(t: nat)
    | SignalOff(t: nat)
    | Spawn(t: nat, task: nat)
    | ProbeEnds(t: nat, ok: bool)
    | SignalOn(t: nat)
    | GiveUp(t: nat)
    | Release(t: nat)
    | InboundSignal(online: bool)
    | Cancel

  predicate At(s: State, t: nat, pc: Pc) { t in s.threads && s.threads[t] == pc }

  predicate Enabled(s: State, e: Event) {
    match e
    case NewPacket(t) => t !in s.threads
    case PacketEnds(t, _) => At(s, t, Sending)
    case StartupEnds(t, _) => At(s, t, Probing)
    case StartupSignals(t) => At(s, t, ProbeOk)
    case TryFlag(t) => t in s.threads && s.threads[t].MustRecover?
    case SignalOff(t) => At(s, t, WonFlag)
    case Spawn(t, task) => At(s, t, Spawning) && task !in s.threads
    case ProbeEnds(t, _) => At(s, t, Waiting)
    case SignalOn(t) => At(s, t, Recovered)
    case GiveUp(t) => At(s, t, Waiting) && s.cancelled
    case Release(t) => At(s, t, Releasing)
    case InboundSignal(_) => true
    case Cancel => true
  }

  function Goto(s: State, t: nat, pc: Pc): State { s.(threads := s.threads[t := pc]) }

  function Next(s: State, e: Event): State
    requires Enabled(s, e)
  {
    match e
    case NewPacket(t) => Goto(s, t, Sending)
    case PacketEnds(t, recover) => Goto(s, t, if recover then MustRecover(false) else Finished)
    case StartupEnds(t, ok) => Goto(s, t, if ok then ProbeOk else MustRecover(true))
    case StartupSignals(t) => Goto(s, t, Finished).(agg := Agg.Set(s.agg, Agg.Smtp(true)))
    case TryFlag(t) =>
      if s.enabled && !s.flag then Goto(s, t, WonFlag).(flag := true) else Goto(s, t, Finished)
    case SignalOff(t) => Goto(s, t, Spawning).(agg := Agg.Set(s.agg, Agg.Smtp(false)))
    case Spawn(t, task) => Goto(Goto(s, t, Finished), task, Waiting)
    case ProbeEnds(t, ok) => if ok then Goto(s, t, Recovered) else s
    case SignalOn(t) => Goto(s, t, Releasing).(agg := Agg.Set(s.agg, Agg.Smtp(true)))
    case GiveUp(t) => Goto(s, t, Releasing)
    case Release(t) => Goto(s, t, Finished).(flag := false)
    case InboundSignal(b) => s.(agg := Agg.Set(s.agg, Agg.Imap(b)))
    case Cancel => s.(cancelled := true)
  }

  function Initial(enabled: bool): State {
    State(enabled, map[0 := Probing], false, Agg.START, false)
  }

  predicate Possible(s: State, es: seq<Event>)
    decreases |es|
  {
    es == [] || (Enabled(s, es[0]) && Possible(Next(s, es[0]), es[1..]))
  }

  function Play(s: State, es: seq<Event>): State
    requires Possible(s, es)
    decreases |es|
  {
    if es == [] then s else Play(Next(s, es[0]), es[1..])
  }

  predicate Holds(pc: Pc) { pc.WonFlag? || pc.Spawning? || pc.Waiting? || pc.Recovered? || pc.Releasing? }

  predicate Holder(s: State, t: nat) { t in s.threads && Holds(s.threads[t]) }

  /** A holder that has not yet signalled online. */
  predicate Mending(s: State, t: nat) { Holder(s, t) && !s.threads[t].Releasing? }

  /** The startup probe, until it has signalled or handed over to recovery. */
  predicate StartupOpen(s: State, t: nat) {
    t in s.threads && (s.threads[t].Probing? || s.threads[t].ProbeOk? || s.threads[t] == MustRecover(true))
  }

  /** Somebody is still going to bring SMTP online. */
  ghost predicate Hope(s: State) { exists t :: StartupOpen(s, t) || Mending(s, t) }

  ghost predicate Inv(s: State) {
    && (forall t, u :: Holder(s, t) && Holder(s, u) ==> t == u)
    && (s.flag <==> exists t :: Holder(s, t))
    && s.agg.last == (s.agg.imapUp && s.agg.smtpUp)
    && (s.enabled && !s.cancelled ==>
          && (s.agg.smtpUp || Hope(s))
          && (forall t :: At(s, t, Releasing) ==> s.agg.smtpUp))
  }

  /** Who holds the flag after one thread's move. */
  predicate HoldsAfter(s: State, e: Event, t: nat)
    requires Enabled(s, e)
  {
    || (Holder(s, t) && !(e.Spawn? && t == e.t) && !(e.Release? && t == e.t))
    || (e.Spawn? && t == e.task)
    || (e.TryFlag? && t == e.t && s.enabled && !s.flag)
  }

  lemma HoldersMove(s: State, e: Event, t: nat)
    requires Enabled(s, e)
    ensures Holder(Next(s, e), t) <==> HoldsAfter(s, e, t)
  {
    hide Agg.Set;
  }

  lemma FlagMoves(s: State, e: Event)
    requires Enabled(s, e)
    ensures Next(s, e).flag <==> !e.Release? && (s.flag || (e.TryFlag? && s.enabled))
    ensures e.Spawn? || e.Release? ==> Holder(s, e.t)
  {
    hide Agg.Set;
  }

  lemma FlagKept(s: State, e: Event)
    requires Inv(s) && Enabled(s, e)
    ensures var s' := Next(s, e);
            && (forall t, u :: Holder(s', t) && Holder(s', u) ==> t == u)
            && (s'.flag <==> exists t :: Holder(s', t))
  {
    hide Hope, Next, Enabled, Holder;
    var s' := Next(s, e);
    forall t: nat ensures Holder(s', t) <==> HoldsAfter(s, e, t) { HoldersMove(s, e, t); }
    FlagMoves(s, e);
    if e.Spawn? {
      assert Holder(s', e.task);
    } else if e.TryFlag? && s.enabled && !s.flag {
      assert Holder(s', e.t);
    } else if s.flag && !e.Release? {
      var h :| Holder(s, h);
      assert Holder(s', h);
    }
  }

  lemma SignalKept(s: State, e: Event)
    requires Inv(s) && Enabled(s, e)
    ensures var s' := Next(s, e); s'.agg.last == (s'.agg.imapUp && s'.agg.smtpUp)
  {
    hide Hope, Holder;
  }

  lemma HopeKept(s: State, e: Event)
    requires Inv(s) && Enabled(s, e) && s.enabled && !Next(s, e).cancelled
    ensures var s' := Next(s, e);
            && (s'.agg.smtpUp || Hope(s'))
            && (forall t :: At(s', t, Releasing) ==> s'.agg.smtpUp)
  {
    var s' := Next(s, e);
    if e.SignalOff? {
      assert Mending(s', e.t);
    } else if !s.agg.smtpUp {
      var h :| StartupOpen(s, h) || Mending(s, h);
      if e.TryFlag? && e.t == h {
        if s.flag {
          var g :| Holder(s, g);
          assert !At(s, g, Releasing);
          assert Mending(s', g);
        } else {
          assert Mending(s', h);
        }
      } else if e.Spawn? && e.t == h {
        assert Mending(s', e.task);
      } else if !s'.agg.smtpUp {
        assert StartupOpen(s', h) || Mending(s', h);
      }
    }
    forall t | At(s', t, Releasing) ensures s'.agg.smtpUp {
      if !e.SignalOn? {
        assert At(s, t, Releasing);
        if e.SignalOff? { assert Holder(s, e.t) && Holder(s, t); }
      }
    }
  }

  lemma StepKeeps(s: State, e: Event)
    requires Inv(s) && Enabled(s, e)
    ensures Inv(Next(s, e))
  {
    FlagKept(s, e);
    SignalKept(s, e);
    if s.enabled && !Next(s, e).cancelled { HopeKept(s, e); }
    hide Hope, Holder;
  }

  lemma InitialInv(enabled: bool)
    ensures Inv(Initial(enabled))
  {
    assert StartupOpen(Initial(enabled), 0);
  }

  lemma {:induction false} RunKeeps(s: State, es: seq<Event>)
    requires Inv(s) && Possible(s, es)
    ensures Inv(Play(s, es)) && Play(s, es).enabled == s.enabled
    decreases |es|
  {
    if es != [] {
      StepKeeps(s, es[0]);
      assert Next(s, es[0]).enabled == s.enabled;
      hide Inv, Next;
      RunKeeps(Next(s, es[0]), es[1..]);
    }
  }

  /** A packet that calls for recovery gets it: if recovery is enabled and nobody holds the flag,
      four steps later SMTP is offline, the flag is set and a task waits to probe. */
  lemma PacketBeginsRecovery(s: State, t: nat, task: nat)
    requires At(s, t, Sending) && task !in s.threads && s.enabled && !s.flag
    ensures var es := [PacketEnds(t, true), TryFlag(t), SignalOff(t), Spawn(t, task)];
            && Possible(s, es) && !Play(s, es).agg.smtpUp
            && Play(s, es) == s.(threads := s.threads[t := Finished][task := Waiting], flag := true,
                                 agg := Agg.Set(s.agg, Agg.Smtp(false)))
  {
    var s1 := Next(s, PacketEnds(t, true));
    var s2 := Next(s1, TryFlag(t));
    var s3 := Next(s2, SignalOff(t));
    var s4 := Next(s3, Spawn(t, task));
    assert s4.threads == s.threads[t := Finished][task := Waiting];
    hide Next, Enabled, Possible, Play, Agg.Set;
    assert Possible(s4, []) && Play(s4, []) == s4 by { NoSteps(s4); }
    PlayFirst(s3, Spawn(t, task), []);
    PlayFirst(s2, SignalOff(t), [Spawn(t, task)]);
    PlayFirst(s1, TryFlag(t), [SignalOff(t), Spawn(t, task)]);
    PlayFirst(s, PacketEnds(t, true), [TryFlag(t), SignalOff(t), Spawn(t, task)]);
  }

  /** Otherwise nothing but the end of the thread happens. */
  lemma PacketFindsRecovery(s: State, t: nat)
    requires At(s, t, Sending) && (!s.enabled || s.flag)
    ensures var es := [PacketEnds(t, true), TryFlag(t)];
            Possible(s, es) && Play(s, es) == s.(threads := s.threads[t := Finished])
  {
    var s1 := Next(s, PacketEnds(t, true));
    var s2 := Next(s1, TryFlag(t));
    assert s2.threads == s.threads[t := Finished];
    NoSteps(s2);
    PlayFirst(s1, TryFlag(t), []);
    PlayFirst(s, PacketEnds(t, true), [TryFlag(t)]);
  }

  lemma NoSteps(s: State)
    ensures Possible(s, []) && Play(s, []) == s
  {
  }

  lemma PlayFirst(s: State, e: Event, es: seq<Event>)
    requires Enabled(s, e)
    ensures Possible(s, [e] + es) <==> Possible(Next(s, e), es)
    ensures Possible(s, [e] + es) ==> Play(s, [e] + es) == Play(Next(s, e), es)
    ensures [e] + [] == [e]
  {
    hide Next, Enabled;
    assert ([e] + es)[1..] == es;
  }

  /** For any number of interleaved threads, at most one holder exists and the flag is set
      exactly while one does. */
  lemma AtMostOneHolder(enabled: bool, es: seq<Event>)
    requires Possible(Initial(enabled), es)
    ensures var s := Play(Initial(enabled), es);
            && (forall t, u :: Holder(s, t) && Holder(s, u) ==> t == u)
            && (s.flag <==> exists t :: Holder(s, t))
  {
    InitialInv(enabled);
    RunKeeps(Initial(enabled), es);
  }

  /** SMTP is offline, the process is not shutting down, and nobody is left to bring it back. */
  ghost predicate Stuck(s: State) { !s.cancelled && !s.agg.smtpUp && !Hope(s) }

  /** A run of a bridge whose recovery is switched off by a zero delay. */
  const DEAD_END: seq<Event> := [StartupEnds(0, false), TryFlag(0)]

  lemma DeadEndIsStuck()
    ensures Possible(Initial(false), DEAD_END) && Stuck(Play(Initial(false), DEAD_END))
  {
    var s0 := Initial(false);
    var e1 := DEAD_END[1..];
    assert DEAD_END[0] == StartupEnds(0, false) && e1[0] == TryFlag(0) && e1[1..] == [];
    var s1 := Next(s0, StartupEnds(0, false));
    assert At(s1, 0, MustRecover(true));
    var s2 := Next(s1, TryFlag(0));
    assert Possible(s2, e1[1..]) && Play(s2, e1[1..]) == s2;
    assert Possible(s1, e1) && Play(s1, e1) == s2;
    assert Possible(s0, DEAD_END) && Play(s0, DEAD_END) == s2;
    assert s2.threads == map[0 := Finished];
  }

  /** Recovery never gets stuck in any run, exactly if recovery is enabled: that is, if the
      recovery delay is positive. */
  lemma NeverStuckIff(enabled: bool)
    ensures enabled <==> forall es :: Possible(Initial(enabled), es) ==> !Stuck(Play(Initial(enabled), es))
  {
    if enabled {
      forall es | Possible(Initial(enabled), es) ensures !Stuck(Play(Initial(enabled), es)) {
        InitialInv(enabled);
        RunKeeps(Initial(enabled), es);
      }
    } else {
      DeadEndIsStuck();
      hide Possible, Play, Stuck, Initial;
      var es := DEAD_END;
      assert !(Possible(Initial(enabled), es) ==> !Stuck(Play(Initial(enabled), es)));
    }
  }

  /* ---- And it does come back ---- */

  lemma {:induction false} FreshAbove(ids: set<nat>) returns (n: nat)
    ensures forall t :: t in ids ==> t < n
  {
    if ids == {} {
      n := 0;
    } else {
      var t :| t in ids;
      var m := FreshAbove(ids - {t});
      n := if m > t then m else t + 1;
      assert forall x :: x in ids ==> x == t || x in ids - {t};
    }
  }

  /** How many steps a thread needs to signal online. */
  function Distance(pc: Pc): nat {
    match pc
    case MustRecover(_) => 5
    case WonFlag => 4
    case Spawning => 3
    case Waiting => 2
    case Probing => 2
    case Recovered => 1
    case ProbeOk => 1
    case _ => 0
  }

  /** The step that takes this thread, or the task it starts, closer to signalling online when
      the server answers; and who to follow next. */
  lemma Advance(s: State, t: nat) returns (e: Event, u: nat)
    requires Inv(s) && s.enabled && (Mending(s, t) || (StartupOpen(s, t) && !s.flag) || At(s, t, Probing) || At(s, t, ProbeOk))
    ensures Enabled(s, e) && Inv(Next(s, e)) && Next(s, e).enabled
    ensures Distance(s.threads[t]) > 0
    ensures Distance(s.threads[t]) == 1 ==> Next(s, e).agg.smtpUp
    ensures Distance(s.threads[t]) > 1 ==>
              (Mending(Next(s, e), u) || At(Next(s, e), u, ProbeOk))
              && Distance(Next(s, e).threads[u]) == Distance(s.threads[t]) - 1
  {
    u := t;
    match s.threads[t] {
      case Probing => e := StartupEnds(t, true);
      case ProbeOk => e := StartupSignals(t);
      case MustRecover(_) => e := TryFlag(t);
      case WonFlag => e := SignalOff(t);
      case Spawning =>
        u := FreshAbove(s.threads.Keys);
        e := Spawn(t, u);
      case Waiting => e := ProbeEnds(t, true);
      case Recovered => e := SignalOn(t);
    }
    StepKeeps(s, e);
    hide Inv;
  }

  lemma {:induction false} Comeback(s: State, t: nat) returns (es: seq<Event>)
    requires Inv(s) && s.enabled && (Mending(s, t) || (StartupOpen(s, t) && !s.flag) || At(s, t, Probing) || At(s, t, ProbeOk))
    ensures |es| <= 5 && Possible(s, es) && Play(s, es).agg.smtpUp
    ensures |es| <= Distance(s.threads[t])
    decreases Distance(s.threads[t])
  {
    var d := Distance(s.threads[t]);
    var e, u := Advance(s, t);
    hide Inv, Next, Enabled;
    var s1 := Next(s, e);
    if d == 1 {
      es := [e];
      assert es[1..] == [];
    } else {
      var rest := Comeback(s1, u);
      es := [e] + rest;
      assert es[1..] == rest;
    }
  }

  /** From every reachable state of an enabled, uncancelled bridge, at most five steps of its
      own threads lead to SMTP online, once the server answers. */
  lemma CanAlwaysComeBack(es: seq<Event>) returns (rest: seq<Event>)
    requires Possible(Initial(true), es) && !Play(Initial(true), es).cancelled
    ensures var s := Play(Initial(true), es);
            |rest| <= 5 && Possible(s, rest) && Play(s, rest).agg.smtpUp
  {
    InitialInv(true);
    RunKeeps(Initial(true), es);
    var s := Play(Initial(true), es);
    if s.agg.smtpUp {
      rest := [];
    } else {
      var t :| StartupOpen(s, t) || Mending(s, t);
      if At(s, t, MustRecover(true)) && s.flag {
        t :| Holder(s, t);
        assert !At(s, t, Releasing);
      }
      rest := Comeback(s, t);
    }
  }
}
