// The cap on concurrent key derivations (cryptoflex/keystore.py): threads that call
// _derive_wrapping_key, interleaved in any order over one semaphore of two permits.
module KdfSemaphore {

  const PERMITS: nat := 2

  /** Where a thread stands in _derive_wrapping_key; Idle is outside it. */
  datatype Phase = Idle | Waiting | Deriving

  datatype Thread = Thread(phase: Phase, acquires: nat, releases: nat)

  datatype State = State(permits: nat, threads: map<nat, Thread>)

  /** One atomic action of one thread. */
  datatype Action =
    | RefusePassword(t: nat)   // empty password: raise before acquiring
    | Wait(t: nat)             // call acquire
    | Acquire(t: nat)          // acquire succeeds
    | TimeOut(t: nat)          // acquire gives up: raise
    | Finish(t: nat)           // derivation returned, raised, or the KDF is unsupported: finally releases

  predicate Enabled(s: State, a: Action) {
    a.t in s.threads &&
    match a
    case RefusePassword(t) => s.threads[t].phase == Idle
    case Wait(t) => s.threads[t].phase == Idle
    case Acquire(t) => s.threads[t].phase == Waiting && s.permits > 0
    case TimeOut(t) => s.threads[t].phase == Waiting
    case Finish(t) => s.threads[t].phase == Deriving
  }

  function Step(s: State, a: Action): State
    requires Enabled(s, a)
  {
    var th := s.threads[a.t];
    match a
    case RefusePassword(t) => s
    case Wait(t) => s.(threads := s.threads[t := th.(phase := Waiting)])
    case Acquire(t) => State(s.permits - 1, s.threads[t := Thread(Deriving, th.acquires + 1, th.releases)])
    case TimeOut(t) => s.(threads := s.threads[t := th.(phase := Idle)])
    case Finish(t) => State(s.permits + 1, s.threads[t := Thread(Idle, th.acquires, th.releases + 1)])
  }

  function InFlight(s: State): set<nat> {
    set t | t in s.threads && s.threads[t].phase == Deriving
  }

  predicate Initial(s: State) {
    s.permits == PERMITS && forall t :: t in s.threads ==> s.threads[t] == Thread(Idle, 0, 0)
  }

  /** Permits and derivations in flight add up to two, and each thread has released once per
      acquire, but for the acquire it is deriving under. */
  predicate Disciplined(s: State) {
    && s.permits + |InFlight(s)| == PERMITS
    && forall t :: t in s.threads ==>
         s.threads[t].acquires == s.threads[t].releases + (if s.threads[t].phase == Deriving then 1 else 0)
  }

  lemma InitialDisciplined(s: State)
    requires Initial(s)
    ensures Disciplined(s)
  {
    assert InFlight(s) == {};
  }

  lemma StepKeepsDiscipline(s: State, a: Action)
    requires Disciplined(s) && Enabled(s, a)
    ensures Disciplined(Step(s, a))
  {
    var next := Step(s, a);
    match a
    case RefusePassword(t) =>
    case Wait(t) => assert InFlight(next) == InFlight(s);
    case Acquire(t) => assert InFlight(next) == InFlight(s) + {t};
    case TimeOut(t) => assert InFlight(next) == InFlight(s);
    case Finish(t) => assert InFlight(next) == InFlight(s) - {t};
  }

  /** The state after a schedule; an action that is not enabled does not happen. */
  function Run(s: State, schedule: seq<Action>): State
    decreases |schedule|
  {
    if schedule == [] then s
    else Run(if Enabled(s, schedule[0]) then Step(s, schedule[0]) else s, schedule[1..])
  }

  lemma {:induction false} RunKeepsDiscipline(s: State, schedule: seq<Action>)
    requires Disciplined(s)
    ensures Disciplined(Run(s, schedule))
    decreases |schedule|
  {
    if schedule != [] {
      if Enabled(s, schedule[0]) {
        StepKeepsDiscipline(s, schedule[0]);
        RunKeepsDiscipline(Step(s, schedule[0]), schedule[1..]);
      } else {
        RunKeepsDiscipline(s, schedule[1..]);
      }
    }
  }

  /** Over every interleaving of any number of threads: at most two derivations are in flight,
      a permit is free exactly when fewer are, every thread outside the function has released
      as often as it acquired, and a waiting thread can go ahead whenever nobody derives. */
  lemma AtMostTwoDerivations(s: State, schedule: seq<Action>)
    requires Initial(s)
    ensures var e := Run(s, schedule);
            && |InFlight(e)| <= 2
            && (e.permits > 0 <==> |InFlight(e)| < 2)
            && (forall t :: t in e.threads && e.threads[t].phase != Deriving ==>
                  e.threads[t].acquires == e.threads[t].releases)
            && (forall t :: t in e.threads && e.threads[t].phase == Waiting && InFlight(e) == {} ==>
                  Enabled(e, Acquire(t)))
  {
    InitialDisciplined(s);
    RunKeepsDiscipline(s, schedule);
  }

  /** A thread that finds a permit free goes in. */
  function Entered(s: State, t: nat): State
    requires t in s.threads && s.permits > 0
  {
    State(s.permits - 1, s.threads[t := Thread(Deriving, s.threads[t].acquires + 1, s.threads[t].releases)])
  }

  lemma RunEnters(s: State, t: nat, schedule: seq<Action>)
    requires t in s.threads && s.threads[t].phase == Idle && s.permits > 0
    requires |schedule| >= 2 && schedule[0] == Wait(t) && schedule[1] == Acquire(t)
    ensures Run(s, schedule) == Run(Entered(s, t), schedule[2..])
  {
    assert schedule[1..][0] == Acquire(t) && schedule[1..][1..] == schedule[2..];
    assert Step(Step(s, Wait(t)), Acquire(t)) == Entered(s, t);
  }

  lemma RunOne(s: State, a: Action)
    requires Enabled(s, a)
    ensures Run(s, [a]) == Step(s, a)
  {
    assert [a][1..] == [];
  }

  /** The cap is reached and no lower: from a fresh semaphore two threads derive side by side, a
      third waits, and the first one to finish lets it in. */
  lemma TwoDeriveAThirdWaits(s: State, t: nat, u: nat, w: nat)
    requires Initial(s) && t in s.threads && u in s.threads && w in s.threads && t != u && u != w && w != t
    ensures var both := Run(s, [Wait(t), Acquire(t), Wait(u), Acquire(u), Wait(w)]);
            && InFlight(both) == {t, u} && both.permits == 0
            && Enabled(both, TimeOut(w)) && !Enabled(both, Acquire(w))
            && InFlight(Run(Run(both, [Finish(t)]), [Acquire(w)])) == {u, w}
  {
    hide Run;
    var schedule := [Wait(t), Acquire(t), Wait(u), Acquire(u), Wait(w)];
    RunEnters(s, t, schedule);
    RunEnters(Entered(s, t), u, schedule[2..]);
    assert schedule[2..][2..] == [Wait(w)];
    var two := Entered(Entered(s, t), u);
    RunOne(two, Wait(w));
    var both := Step(two, Wait(w));
    RunOne(both, Finish(t));
    RunOne(Step(both, Finish(t)), Acquire(w));
  }
}
