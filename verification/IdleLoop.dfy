/** The idle loop and its one-slot notification channel: no EXISTS is lost, and the fall back
    to polling comes after exactly three errors in a row. */
module IdleLoop {
  const MAX_ERRORS := 3

  /** How one wait for mail ended. */
  datatype Outcome = Wake | Clean | Error

  /** Where the session is.  `Connecting` lasts until the catch-up fetch begins; in `Draining`
      the token was taken and the idle command is being ended; in `FetchDue` a fetch is the
      next thing to start. */
  datatype Place = Connecting | Fetching | Top | Idling | Draining | FetchDue | Polling | Ended

  /** `unseen` says that an EXISTS came after the last fetch began. */
  datatype State = State(place: Place, token: bool, errors: nat, unseen: bool, outcomes: seq<Outcome>)

  const START := State(Connecting, false, 0, false, [])

  datatype Event =
    | Exists
    | StartFetch
    | EndFetch(ok: bool)
    | Listen
    | TakeToken
    | Drained
    | IdleReturns(err: bool, cancelled: bool)
    | Cancel

  predicate Enabled(s: State, e: Event) {
    match e
    case Exists => !s.place.Ended?
    case StartFetch => s.place.Connecting? || s.place.FetchDue?
    case EndFetch(_) => s.place.Fetching?
    case Listen => s.place.Top?
    case TakeToken => s.place.Idling? && s.token
    case Drained => s.place.Draining?
    case IdleReturns(_, _) => s.place.Idling?
    case Cancel => true
  }

  function Next(s: State, e: Event): State
    requires Enabled(s, e)
  {
    match e
    case Exists => s.(token := true, unseen := true)
    case StartFetch => s.(place := Fetching, unseen := false)
    case EndFetch(ok) => s.(place := if ok then Top else Ended)
    case Listen => s.(place := Idling)
    case TakeToken => s.(place := Draining, token := false, outcomes := s.outcomes + [Wake])
    case Drained => s.(place := FetchDue, errors := 0)
    case IdleReturns(err, cancelled) =>
      if err && !cancelled then
        s.(errors := s.errors + 1, outcomes := s.outcomes + [Error],
           place := if s.errors + 1 >= MAX_ERRORS then Polling else Top)
      else s.(place := FetchDue, errors := 0, outcomes := s.outcomes + [Clean])
    case Cancel => s.(place := Ended)
  }

  predicate Possible(s: State, es: seq<Event>)
    decreases |es|
  {
    es == [] || (Enabled(s, es[0]) && Possible(Next(s, es[0]), es[1..]))
  }

  function Play(s: State, es: seq<Event>): State
    requires Possible(s, es)
    decreases |es|
  {
    if es == [] then s else Play(Next(s, es[0]), es[1..])
  }

  /** Errors since the last wake-up or clean return. */
  function TrailingErrors(outcomes: seq<Outcome>): nat {
    if outcomes == [] || outcomes[|outcomes| - 1] != Error then 0
    else 1 + TrailingErrors(outcomes[..|outcomes| - 1])
  }

  /** No three errors in a row before the end of the list. */
  predicate NoEarlierRun(outcomes: seq<Outcome>) {
    forall i :: 0 <= i < |outcomes| ==> TrailingErrors(outcomes[..i]) < MAX_ERRORS
  }

  ghost predicate Inv(s: State) {
    && (s.unseen ==> s.token || s.place in {Connecting, Draining, FetchDue, Polling, Ended})
    && NoEarlierRun(s.outcomes)
    && (s.place.Draining? ==> TrailingErrors(s.outcomes) == 0)
    && (!s.place.Draining? ==> s.errors == TrailingErrors(s.outcomes) || s.place.Ended?)
    && TrailingErrors(s.outcomes) <= MAX_ERRORS
    && (s.place.Polling? <==> TrailingErrors(s.outcomes) == MAX_ERRORS && !s.place.Ended?)
  }

  lemma OutcomeSnoc(outcomes: seq<Outcome>, o: Outcome)
    ensures TrailingErrors(outcomes + [o]) == if o == Error then TrailingErrors(outcomes) + 1 else 0
    ensures NoEarlierRun(outcomes) && TrailingErrors(outcomes) < MAX_ERRORS ==> NoEarlierRun(outcomes + [o])
  {
    var t := outcomes + [o];
    assert t[..|t| - 1] == outcomes;
    forall i | 0 <= i < |t| && NoEarlierRun(outcomes) && TrailingErrors(outcomes) < MAX_ERRORS
      ensures TrailingErrors(t[..i]) < MAX_ERRORS
    {
      if i < |outcomes| { assert t[..i] == outcomes[..i]; }
    }
  }

  lemma StepKeeps(s: State, e: Event)
    requires Inv(s) && Enabled(s, e)
    ensures Inv(Next(s, e))
  {
    OutcomeSnoc(s.outcomes, Wake);
    OutcomeSnoc(s.outcomes, Clean);
    OutcomeSnoc(s.outcomes, Error);
    hide NoEarlierRun, TrailingErrors;
  }

  lemma {:induction false} RunKeeps(s: State, es: seq<Event>)
    requires Inv(s) && Possible(s, es)
    ensures Inv(Play(s, es))
    decreases |es|
  {
    hide Inv, Next;
    if es != [] {
      StepKeeps(s, es[0]);
      RunKeeps(Next(s, es[0]), es[1..]);
    }
  }

  /** In every run, an EXISTS that no fetch has begun after is covered: by the token, or by a
      fetch that this iteration will still start; unless the session has ended or polls. */
  lemma NoLostWakeUp(es: seq<Event>)
    requires Possible(START, es)
    ensures var s := Play(START, es);
            s.unseen && s.place !in {Polling, Ended} ==> s.token || s.place in {Connecting, Draining, FetchDue}
  {
    RunKeeps(START, es);
  }

  /** Fall back happens exactly at three consecutive errors, and not a moment before. */
  lemma FallBackExactlyAtThree(es: seq<Event>)
    requires Possible(START, es)
    ensures var s := Play(START, es);
            && NoEarlierRun(s.outcomes)
            && (s.place != Ended ==> (s.place == Polling <==> TrailingErrors(s.outcomes) == 3))
  {
    RunKeeps(START, es);
  }

  /** A wait that ends in a wake-up or a clean return makes a fetch due, with the count of
      errors at zero; one that ends in an error does not, and goes on or falls back. */
  lemma WakingMakesFetchDue(s: State, err: bool, cancelled: bool)
    requires s.place.Idling?
    ensures s.token ==> var es := [TakeToken, Drained];
                        Possible(s, es) && Play(s, es).place.FetchDue? && Play(s, es).errors == 0
    ensures var s' := Next(s, IdleReturns(err, cancelled));
            if err && !cancelled then s'.place == (if s.errors >= 2 then Polling else Top)
            else s'.place.FetchDue? && s'.errors == 0
  {
    if s.token {
      var es, last := [TakeToken, Drained], [Drained];
      var s1 := Next(s, TakeToken);
      var s2 := Next(s1, Drained);
      assert es[1..] == last && last[1..] == [];
      assert Possible(s2, last[1..]) && Play(s2, last[1..]) == s2;
      assert Possible(s1, last) && Play(s1, last) == s2;
    }
  }

  /* ---- The loop itself ---- */

  /** One round of the loop: how the wait ended, and whether the fetch after it succeeded. */
  datatype Round = Waited(outcome: Outcome, fetchOk: bool) | Cancelled
  datatype Result = Running | FellBack | FetchFailed | Stopped

  function Outcomes(rounds: seq<Round>): seq<Outcome> {
    if rounds == [] then []
    else
      var prior := Outcomes(rounds[..|rounds| - 1]);
      match rounds[|rounds| - 1]
      case Waited(o, _) => prior + [o]
      case Cancelled => prior
  }

  /** The fetches that a list of rounds starts: one for each wait that ends without an error. */
  function Fetches(rounds: seq<Round>): nat {
    if rounds == [] then 0
    else
      var r := rounds[|rounds| - 1];
      Fetches(rounds[..|rounds| - 1]) + if r.Waited? && r.outcome != Error then 1 else 0
  }

  /** The waits that end without an error, told apart by their places. */
  ghost function Woken(rounds: seq<Round>): set<int> {
    set i | 0 <= i < |rounds| && rounds[i].Waited? && rounds[i].outcome in {Wake, Clean}
  }

  lemma {:induction false} FetchesAreWakings(rounds: seq<Round>)
    ensures Fetches(rounds) == |Woken(rounds)|
  {
    if rounds != [] {
      var n := |rounds| - 1;
      var prior := rounds[..n];
      FetchesAreWakings(prior);
      assert Woken(rounds) == Woken(prior) + (if n in Woken(rounds) then {n} else {});
      assert n !in Woken(prior);
    }
  }

  /** Just the last d waits ended in an error. */
  lemma {:induction false} TrailingErrorsIff(outcomes: seq<Outcome>, d: nat)
    ensures TrailingErrors(outcomes) == d <==>
            && d <= |outcomes| && (forall i :: |outcomes| - d <= i < |outcomes| ==> outcomes[i] == Error)
            && (d < |outcomes| ==> outcomes[|outcomes| - 1 - d] != Error)
    decreases |outcomes|
  {
    if outcomes != [] && outcomes[|outcomes| - 1] == Error && d > 0 {
      TrailingErrorsIff(outcomes[..|outcomes| - 1], d - 1);
    }
  }

  /** A round after which the loop goes on, as long as the errors do not add up. */
  predicate GoesOn(r: Round) { r.Waited? && (r.outcome == Error || r.fetchOk) }

  /** The loop over the rounds so far.  It stops after n rounds, and says why. */
  method Loop(rounds: seq<Round>) returns (result: Result, n: nat, fetches: nat)
    ensures n <= |rounds| && fetches == Fetches(rounds[..n])
    ensures forall i :: 0 <= i < n - 1 ==> rounds[i].Waited? && (rounds[i].outcome == Error || rounds[i].fetchOk)
    ensures result == Running ==> n == |rounds|
    ensures result == Stopped <==> n > 0 && rounds[n - 1].Cancelled?
    ensures result == FetchFailed <==>
              n > 0 && rounds[n - 1].Waited? && rounds[n - 1].outcome != Error && !rounds[n - 1].fetchOk
    ensures NoEarlierRun(Outcomes(rounds[..n]))
    ensures result == FellBack <==> TrailingErrors(Outcomes(rounds[..n])) == 3
  {
    hide NoEarlierRun, TrailingErrors;
    n, fetches := 0, 0;
    var errors := 0;
    assert NoEarlierRun([]) && TrailingErrors([]) == 0 by { EmptyOutcomes(); }
    while n < |rounds|
      invariant n <= |rounds|
      invariant forall i :: 0 <= i < n ==> GoesOn(rounds[i])
      invariant NoEarlierRun(Outcomes(rounds[..n]))
      invariant errors == TrailingErrors(Outcomes(rounds[..n])) < MAX_ERRORS
      invariant fetches == Fetches(rounds[..n])
    {
      var round := rounds[n];
      assert rounds[..n + 1][..n] == rounds[..n];
      n := n + 1;
      if round.Cancelled? {
        return Stopped, n, fetches;
      }
      OutcomeSnoc(Outcomes(rounds[..n - 1]), round.outcome);
      if round.outcome == Error {
        errors := errors + 1;
        if errors >= MAX_ERRORS {
          return FellBack, n, fetches;
        }
      } else {
        errors := 0;
        fetches := fetches + 1;
        if !round.fetchOk {
          return FetchFailed, n, fetches;
        }
      }
    }
    return Running, n, fetches;
  }

  lemma EmptyOutcomes()
    ensures NoEarlierRun([]) && TrailingErrors([]) == 0
  {
  }
}
