/**
 * The G1 post-barrier stub run by any number of threads: two card loads, the dirtying store and the logging are
 * separate steps. `claimed` and `begun` are history variables.
 */
module CardRaces {
  import opened FirstSeen
  import opened CardBarrier

  type Tid = nat

  /** The next step of a stub call for a store to card c. */
  datatype Pc = Idle | YoungTest(c: nat) | DirtyTest(c: nat) | Dirtying(c: nat) | Logging(c: nat)

  datatype State = State(cards: seq<int>, threads: map<Tid, Pc>, begun: set<nat>, claimed: seq<nat>, log: seq<nat>)

  datatype Action = Begin(c: nat) | Step

  predicate Enabled(s: State, t: Tid, a: Action) {
    && t in s.threads
    && match a
       case Begin(c) => s.threads[t].Idle? && c < |s.cards|
       case Step => !s.threads[t].Idle? && s.threads[t].c < |s.cards|
  }

  function Goto(s: State, t: Tid, pc: Pc): State { s.(threads := s.threads[t := pc]) }

  function Apply(s: State, t: Tid, a: Action): State
    requires Enabled(s, t, a)
  {
    match a
    case Begin(c) => Goto(s, t, YoungTest(c)).(begun := s.begun + {c})
    case Step =>
      match s.threads[t]
      case Idle => s
      case YoungTest(c) => Goto(s, t, if s.cards[c] == YOUNG then Idle else DirtyTest(c))
      case DirtyTest(c) =>
        if s.cards[c] == DIRTY then Goto(s, t, Idle) else Goto(s, t, Dirtying(c)).(claimed := s.claimed + [c])
      case Dirtying(c) => Goto(s, t, Logging(c)).(cards := s.cards[c := DIRTY])
      case Logging(c) => Goto(s, t, Idle).(log := s.log + [c])
  }

  ghost predicate Init(init: seq<int>, s: State) {
    s.cards == init && (forall t :: t in s.threads ==> s.threads[t].Idle?) && s.begun == {} && s.claimed == [] && s.log == []
  }

  ghost predicate Next(s: State, s': State) { exists t, a :: Enabled(s, t, a) && s' == Apply(s, t, a) }

  ghost predicate IsRun(init: seq<int>, run: seq<State>) {
    && |run| > 0 && Init(init, run[0])
    && forall i :: 0 <= i < |run| - 1 ==> Next(run[i], run[i + 1])
  }

  // ---------- counting threads ----------

  function At(threads: map<Tid, Pc>, p: Pc): set<Tid> { set t | t in threads && threads[t] == p }

  lemma AtUpdate(threads: map<Tid, Pc>, t: Tid, pc: Pc, p: Pc)
    requires t in threads
    ensures |At(threads[t := pc], p)|
            == |At(threads, p)| - (if threads[t] == p then 1 else 0) + (if pc == p then 1 else 0)
  {
    var a, b := At(threads, p), At(threads[t := pc], p);
    if pc == p {
      assert b == a + {t};
    } else {
      assert b == a - {t};
    }
  }

  // ---------- the invariant, card by card ----------

  /** Some call for c has not yet reached its store. */
  ghost predicate Underway(s: State, c: nat) {
    exists t :: t in s.threads && (s.threads[t] == YoungTest(c) || s.threads[t] == DirtyTest(c) || s.threads[t] == Dirtying(c))
  }

  /** A card the barrier ignores. */
  ghost predicate Ignored(init: seq<int>, s: State, c: nat)
    requires c < |init| == |s.cards|
  {
    && s.cards[c] == init[c] && Occurs(s.claimed, c) == 0 && Occurs(s.log, c) == 0
    && |At(s.threads, Dirtying(c))| == 0 && |At(s.threads, Logging(c))| == 0
  }

  /** A card still clean: every claim is about to store. */
  ghost predicate Clean(init: seq<int>, s: State, c: nat)
    requires c < |init| == |s.cards|
  {
    && s.cards[c] == init[c] && Occurs(s.log, c) == 0 && |At(s.threads, Logging(c))| == 0
    && Occurs(s.claimed, c) == |At(s.threads, Dirtying(c))|
    && (c in s.begun ==> Underway(s, c)) && (c !in s.begun ==> Occurs(s.claimed, c) == 0)
  }

  /** A card that was dirtied: every claim has logged or is about to. */
  ghost predicate Dirtied(s: State, c: nat)
    requires c < |s.cards|
  {
    && s.cards[c] == DIRTY && c in s.begun && Occurs(s.claimed, c) >= 1
    && Occurs(s.claimed, c) == Occurs(s.log, c) + |At(s.threads, Dirtying(c))| + |At(s.threads, Logging(c))|
  }

  ghost predicate CardOk(init: seq<int>, s: State, c: nat)
    requires c < |init| == |s.cards|
  {
    if Loggable(init[c]) then Clean(init, s, c) || Dirtied(s, c) else Ignored(init, s, c)
  }

  ghost predicate Inv(init: seq<int>, s: State) {
    && |s.cards| == |init|
    && (forall c {:trigger CardOk(init, s, c)} :: 0 <= c < |init| ==> CardOk(init, s, c))
    && (forall t {:trigger CallOk(init, s, t)} :: t in s.threads ==> CallOk(init, s, t))
  }

  ghost predicate CallOk(init: seq<int>, s: State, t: Tid) {
    t in s.threads && !s.threads[t].Idle? ==>
      var c := s.threads[t].c; c < |init| && c in s.begun && (s.threads[t].DirtyTest? ==> init[c] != YOUNG)
  }

  // ---------- every step keeps it ----------

  /** What a step of t on card d leaves alone on another card c. */
  ghost predicate SameCard(s: State, s': State, c: nat)
    requires c < |s.cards| == |s'.cards|
  {
    && s'.cards[c] == s.cards[c] && (c in s'.begun <==> c in s.begun)
    && Occurs(s'.claimed, c) == Occurs(s.claimed, c) && Occurs(s'.log, c) == Occurs(s.log, c)
    && |At(s'.threads, Dirtying(c))| == |At(s.threads, Dirtying(c))|
    && |At(s'.threads, Logging(c))| == |At(s.threads, Logging(c))|
    && (Underway(s, c) ==> Underway(s', c))
  }

  lemma SameCardOk(init: seq<int>, s: State, s': State, c: nat)
    requires c < |init| == |s.cards| == |s'.cards| && SameCard(s, s', c) && CardOk(init, s, c)
    ensures CardOk(init, s', c)
  {
  }

  lemma Counts(s: State, t: Tid, pc: Pc, c: nat)
    requires t in s.threads
    ensures forall p :: p in {Dirtying(c), Logging(c)} ==>
              |At(s.threads[t := pc], p)| == |At(s.threads, p)| - (if s.threads[t] == p then 1 else 0) + (if pc == p then 1 else 0)
  {
    AtUpdate(s.threads, t, pc, Dirtying(c));
    AtUpdate(s.threads, t, pc, Logging(c));
  }

  lemma OtherOccurs(log: seq<nat>, d: nat, c: nat)
    requires c != d
    ensures Occurs(log + [d], c) == Occurs(log, c)
  {
    FirstsOf(log, d);
  }

  predicate OnCard(pc: Pc, c: nat) { !pc.Idle? && pc.c == c }

  /** A thread that moves away from c counts for nothing there. */
  lemma OtherThreads(s: State, s': State, t: Tid, pc: Pc, c: nat)
    requires t in s.threads && s'.threads == s.threads[t := pc] && !OnCard(s.threads[t], c) && !OnCard(pc, c)
    ensures |At(s'.threads, Dirtying(c))| == |At(s.threads, Dirtying(c))|
    ensures |At(s'.threads, Logging(c))| == |At(s.threads, Logging(c))|
    ensures Underway(s, c) ==> Underway(s', c)
  {
    Counts(s, t, pc, c);
    if Underway(s, c) {
      var u :| u in s.threads && (s.threads[u] == YoungTest(c) || s.threads[u] == DirtyTest(c) || s.threads[u] == Dirtying(c));
      assert u != t && s'.threads[u] == s.threads[u];
    }
  }

  lemma OtherCard(s: State, t: Tid, a: Action, c: nat)
    requires Enabled(s, t, a) && c < |s.cards| && c != (if a.Begin? then a.c else s.threads[t].c)
    ensures |Apply(s, t, a).cards| == |s.cards| && SameCard(s, Apply(s, t, a), c)
  {
    var s' := Apply(s, t, a);
    var d := if a.Begin? then a.c else s.threads[t].c;
    OtherThreads(s, s', t, s'.threads[t], c);
    OtherOccurs(s.claimed, d, c);
    OtherOccurs(s.log, d, c);
  }

  lemma BeginOk(init: seq<int>, s: State, t: Tid, c: nat)
    requires Inv(init, s) && Enabled(s, t, Begin(c))
    ensures CardOk(init, Apply(s, t, Begin(c)), c)
  {
    var s' := Apply(s, t, Begin(c));
    assert CardOk(init, s, c);
    Counts(s, t, YoungTest(c), c);
    assert s'.threads[t] == YoungTest(c);
    assert Underway(s', c);
  }

  lemma YoungTestOk(init: seq<int>, s: State, t: Tid, c: nat)
    requires Inv(init, s) && t in s.threads && s.threads[t] == YoungTest(c) && c < |s.cards|
    ensures CardOk(init, Apply(s, t, Step), c)
  {
    var s' := Apply(s, t, Step);
    assert CardOk(init, s, c);
    Counts(s, t, s'.threads[t], c);
    if s.cards[c] != YOUNG {
      assert s'.threads[t] == DirtyTest(c);
      assert Underway(s', c);
    }
  }

  lemma DirtyTestOk(init: seq<int>, s: State, t: Tid, c: nat)
    requires Inv(init, s) && t in s.threads && s.threads[t] == DirtyTest(c) && c < |s.cards| && init[c] != YOUNG && c in s.begun
    ensures CardOk(init, Apply(s, t, Step), c)
  {
    assert CardOk(init, s, c);
    if s.cards[c] == DIRTY {
      Counts(s, t, Idle, c);
    } else {
      Claims(init, s, Apply(s, t, Step), t, c);
    }
  }

  lemma Claims(init: seq<int>, s: State, s': State, t: Tid, c: nat)
    requires c < |init| == |s.cards| && Clean(init, s, c) && t in s.threads && s.threads[t] == DirtyTest(c) && c in s.begun
    requires s' == Goto(s, t, Dirtying(c)).(claimed := s.claimed + [c])
    ensures Clean(init, s', c)
  {
    Counts(s, t, Dirtying(c), c);
    FirstsOf(s.claimed, c);
    assert s'.threads[t] == Dirtying(c);
  }

  lemma DirtyingOk(init: seq<int>, s: State, t: Tid, c: nat)
    requires Inv(init, s) && t in s.threads && s.threads[t] == Dirtying(c) && c < |s.cards| && c in s.begun
    ensures CardOk(init, Apply(s, t, Step), c)
  {
    assert CardOk(init, s, c);
    Counts(s, t, Logging(c), c);
    Positive(At(s.threads, Dirtying(c)), t);
  }

  lemma LoggingOk(init: seq<int>, s: State, t: Tid, c: nat)
    requires Inv(init, s) && t in s.threads && s.threads[t] == Logging(c) && c < |s.cards|
    ensures CardOk(init, Apply(s, t, Step), c)
  {
    assert CardOk(init, s, c);
    Positive(At(s.threads, Logging(c)), t);
    Logs(s, Apply(s, t, Step), t, c);
  }

  lemma Logs(s: State, s': State, t: Tid, c: nat)
    requires c < |s.cards| && Dirtied(s, c) && t in s.threads && s.threads[t] == Logging(c)
    requires s' == Goto(s, t, Idle).(log := s.log + [c])
    ensures Dirtied(s', c)
  {
    Counts(s, t, Idle, c);
    FirstsOf(s.log, c);
  }

  lemma Positive(a: set<Tid>, t: Tid)
    requires t in a
    ensures |a| >= 1
  {
    assert a == (a - {t}) + {t};
  }

  lemma StepCardOk(init: seq<int>, s: State, t: Tid)
    requires Inv(init, s) && Enabled(s, t, Step)
    ensures CardOk(init, Apply(s, t, Step), s.threads[t].c)
  {
    assert CallOk(init, s, t);
    match s.threads[t]
    case YoungTest(c) => YoungTestOk(init, s, t, c);
    case DirtyTest(c) => DirtyTestOk(init, s, t, c);
    case Dirtying(c) => DirtyingOk(init, s, t, c);
    case Logging(c) => LoggingOk(init, s, t, c);
    case Idle =>
  }

  lemma CallsOk(init: seq<int>, s: State, t: Tid, a: Action, u: Tid)
    requires Inv(init, s) && Enabled(s, t, a) && u in s.threads
    ensures CallOk(init, Apply(s, t, a), u)
  {
    assert CallOk(init, s, u) && CallOk(init, s, t);
    if u == t && a.Step? && s.threads[t].YoungTest? {
      assert CardOk(init, s, s.threads[t].c);
    }
  }

  lemma StepKeepsInv(init: seq<int>, s: State, t: Tid, a: Action)
    requires Inv(init, s) && Enabled(s, t, a)
    ensures Inv(init, Apply(s, t, a))
  {
    var s' := Apply(s, t, a);
    var d := if a.Begin? then a.c else s.threads[t].c;
    forall c | 0 <= c < |init|
      ensures CardOk(init, s', c)
    {
      if c != d {
        assert CardOk(init, s, c);
        OtherCard(s, t, a, c);
        SameCardOk(init, s, s', c);
      } else if a.Begin? {
        BeginOk(init, s, t, c);
      } else {
        StepCardOk(init, s, t);
      }
    }
    forall u | u in s'.threads
      ensures CallOk(init, s', u)
    {
      CallsOk(init, s, t, a, u);
    }
  }

  lemma {:induction false} RunKeepsInv(init: seq<int>, run: seq<State>, n: nat)
    requires IsRun(init, run) && n < |run|
    ensures Inv(init, run[n])
  {
    if n == 0 {
      InitInv(init, run[0]);
    } else {
      RunKeepsInv(init, run, n - 1);
      var t, a := Taken(init, run, n - 1);
      StepKeepsInv(init, run[n - 1], t, a);
    }
  }

  /** The step a run takes at n. */
  lemma Taken(init: seq<int>, run: seq<State>, n: nat) returns (t: Tid, a: Action)
    requires IsRun(init, run) && n + 1 < |run|
    ensures Enabled(run[n], t, a) && run[n + 1] == Apply(run[n], t, a)
  {
    assert Next(run[n], run[n + 1]);
    t, a :| Enabled(run[n], t, a) && run[n + 1] == Apply(run[n], t, a);
  }

  lemma InitInv(init: seq<int>, s: State)
    requires Init(init, s)
    ensures Inv(init, s)
  {
    forall c | 0 <= c < |init|
      ensures CardOk(init, s, c)
    {
      assert At(s.threads, Dirtying(c)) == {} && At(s.threads, Logging(c)) == {};
    }
    assert forall t :: t in s.threads ==> CallOk(init, s, t);
  }

  // ---------- what the barrier guarantees ----------

  ghost predicate Quiet(s: State) { forall t :: t in s.threads ==> s.threads[t].Idle? }

  lemma QuietCounts(s: State, c: nat)
    requires Quiet(s)
    ensures |At(s.threads, Dirtying(c))| == 0 && |At(s.threads, Logging(c))| == 0 && !Underway(s, c)
  {
    assert At(s.threads, Dirtying(c)) == {} && At(s.threads, Logging(c)) == {};
  }

  /** When no call is running, the logged cards are exactly the clean, non-young ones stored to, and these are dirty. */
  lemma LoggedWhenQuiet(init: seq<int>, run: seq<State>, n: nat, c: nat)
    requires IsRun(init, run) && n < |run| && Quiet(run[n]) && c < |init|
    ensures |run[n].cards| == |init|
    ensures Occurs(run[n].log, c) >= 1 <==> init[c] != YOUNG && init[c] != DIRTY && c in run[n].begun
    ensures run[n].cards[c] == if init[c] != YOUNG && c in run[n].begun then DIRTY else init[c]
    ensures Occurs(run[n].log, c) == Occurs(run[n].claimed, c)
  {
    RunKeepsInv(init, run, n);
    assert CardOk(init, run[n], c);
    QuietCounts(run[n], c);
  }

  /** Two threads between the second load and the store of the same card. */
  ghost predicate Raced(s: State, c: nat) { |At(s.threads, Dirtying(c))| >= 2 }

  lemma {:induction false} ClaimsGrow(init: seq<int>, run: seq<State>, m: nat, n: nat, c: nat)
    requires IsRun(init, run) && m <= n < |run|
    ensures Occurs(run[m].claimed, c) <= Occurs(run[n].claimed, c)
  {
    if m < n {
      ClaimsGrow(init, run, m, n - 1, c);
      var t, a := Taken(init, run, n - 1);
      if a.Step? && run[n - 1].threads[t].DirtyTest? {
        FirstsOf(run[n - 1].claimed, run[n - 1].threads[t].c);
      }
    }
  }

  /** A second claim happens only next to a claim that has not stored yet. */
  lemma SecondClaim(init: seq<int>, s: State, t: Tid, a: Action, c: nat)
    requires Inv(init, s) && Enabled(s, t, a) && c < |init|
    requires Occurs(s.claimed, c) < 2 <= Occurs(Apply(s, t, a).claimed, c)
    ensures Raced(Apply(s, t, a), c)
  {
    ClaimStep(s, t, a, c);
    ClaimNextToClaim(init, s, t, c);
  }

  /** Only a dirty test that finds the card clean claims it. */
  lemma ClaimStep(s: State, t: Tid, a: Action, c: nat)
    requires Enabled(s, t, a) && Occurs(s.claimed, c) < Occurs(Apply(s, t, a).claimed, c)
    ensures a.Step? && s.threads[t] == DirtyTest(c) && s.cards[c] != DIRTY
    ensures Occurs(Apply(s, t, a).claimed, c) == Occurs(s.claimed, c) + 1
  {
    if a.Step? && s.threads[t].DirtyTest? {
      FirstsOf(s.claimed, s.threads[t].c);
    }
  }

  lemma ClaimNextToClaim(init: seq<int>, s: State, t: Tid, c: nat)
    requires Inv(init, s) && t in s.threads && c < |init| && s.threads[t] == DirtyTest(c) && s.cards[c] != DIRTY
    requires Occurs(s.claimed, c) == 1
    ensures Raced(Goto(s, t, Dirtying(c)), c)
  {
    assert CardOk(init, s, c);
    AtUpdate(s.threads, t, Dirtying(c), Dirtying(c));
  }

  lemma {:induction false} TwiceMeansRace(init: seq<int>, run: seq<State>, n: nat, c: nat) returns (m: nat)
    requires IsRun(init, run) && n < |run| && c < |init| && Occurs(run[n].claimed, c) >= 2
    ensures m <= n && Raced(run[m], c)
  {
    if n > 0 && Occurs(run[n - 1].claimed, c) >= 2 {
      m := TwiceMeansRace(init, run, n - 1, c);
    } else {
      assert n > 0;
      var t, a := Taken(init, run, n - 1);
      RunKeepsInv(init, run, n - 1);
      SecondClaim(init, run[n - 1], t, a, c);
      m := n;
    }
  }

  lemma RaceMeansTwice(init: seq<int>, run: seq<State>, m: nat, n: nat, c: nat)
    requires IsRun(init, run) && m <= n < |run| && c < |init| && Raced(run[m], c)
    ensures Occurs(run[n].claimed, c) >= 2
  {
    RunKeepsInv(init, run, m);
    assert CardOk(init, run[m], c);
    ClaimsGrow(init, run, m, n, c);
  }

  /** A clean, non-young card stored to is logged exactly once iff no two threads were ever both between their
      second load and their store of it. */
  lemma LoggedOnceIffNoRace(init: seq<int>, run: seq<State>, n: nat, c: nat)
    requires IsRun(init, run) && n < |run| && Quiet(run[n]) && c < |init| && init[c] != YOUNG && init[c] != DIRTY && c in run[n].begun
    ensures Occurs(run[n].log, c) == 1 <==> forall m :: 0 <= m <= n ==> !Raced(run[m], c)
  {
    LoggedWhenQuiet(init, run, n, c);
    if Occurs(run[n].log, c) >= 2 {
      var m := TwiceMeansRace(init, run, n, c);
    }
    forall m | 0 <= m <= n && Raced(run[m], c)
      ensures Occurs(run[n].log, c) >= 2
    {
      RaceMeansTwice(init, run, m, n, c);
    }
  }

  // ---------- a race ----------

  lemma Extend(init: seq<int>, run: seq<State>, t: Tid, a: Action) returns (run': seq<State>)
    requires IsRun(init, run) && Enabled(run[|run| - 1], t, a)
    ensures run' == run + [Apply(run[|run| - 1], t, a)] && IsRun(init, run')
  {
    run' := run + [Apply(run[|run| - 1], t, a)];
    forall i | 0 <= i < |run'| - 1
      ensures Next(run'[i], run'[i + 1])
    {
      if i < |run| - 1 {
        assert Next(run[i], run[i + 1]);
      }
    }
  }

  /** Two threads store to one clean card and both pass the dirty test before either dirties it. */
  lemma BothClaim() returns (run: seq<State>)
    ensures IsRun([1], run)
    ensures run[|run| - 1] == State([1], map[0 := Dirtying(0), 1 := Dirtying(0)], {0}, [0, 0], [])
  {
    var start := State([1], map[0 := Idle, 1 := Idle], {}, [], []);
    assert IsRun([1], [start]);
    run := Extend([1], [start], 0, Begin(0));
    run := Extend([1], run, 1, Begin(0));
    run := Extend([1], run, 0, Step);
    run := Extend([1], run, 1, Step);
    run := Extend([1], run, 0, Step);
    run := Extend([1], run, 1, Step);
  }

  /** The card is then logged twice. */
  lemma LoggedTwice() returns (run: seq<State>)
    ensures IsRun([1], run) && Quiet(run[|run| - 1])
    ensures Occurs(run[|run| - 1].log, 0) == 2 && run[|run| - 1].cards == [DIRTY]
  {
    run := BothClaim();
    run := Extend([1], run, 0, Step);
    run := Extend([1], run, 1, Step);
    run := Extend([1], run, 0, Step);
    run := Extend([1], run, 1, Step);
    assert run[|run| - 1].log == [0, 0] && [0, 0][..1] == [0] && [0][..0] == [];
  }
}
