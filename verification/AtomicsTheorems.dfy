/** What the atomic operations guarantee over every run. */
module AtomicsTheorems {
  import opened Options
  import opened Atomics
  import opened AtomicsRefinement

  /** Linearisability: memory is always the result of performing the logged operations one at a time,
      each on the value its predecessors left. */
  lemma Linearizable(w: Widths, mem0: map<Addr, nat>, run: seq<State>, n: nat)
    requires IsRun(w, mem0, run) && n < |run|
    ensures Sequential(mem0, run[n].log) && run[n].mem == Replay(mem0, run[n].log)
  {
    RunKeepsInv(w, mem0, run, n);
  }

  /** A step either leaves memory and log alone, or performs one logged operation: an interfering
      store, or the single effect of a running call that had no effect yet. */
  lemma OneEffectPerCall(w: Widths, mem0: map<Addr, nat>, run: seq<State>, n: nat)
    requires IsRun(w, mem0, run) && n + 1 < |run|
    ensures var s, s' := run[n], run[n + 1];
            || (s'.log == s.log && s'.mem == s.mem)
            || (exists a, v :: s'.log == s.log + [Store(a, v)])
            || (exists t, old_ :: t in s.threads && s.threads[t].Running? && s.threads[t].at.None?
                  && s'.log == s.log + [Atomic(t, s.threads[t].call, old_)]
                  && t in s'.threads && s'.threads[t].Running? && s'.threads[t].at == Some(|s.log|))
  {
    RunKeepsInv(w, mem0, run, n);
    assert Next(w, run[n], run[n + 1]);
    var s, s' := run[n], run[n + 1];
    var t, a :| Enabled(w, s, t, a) && s' == Apply(w, s, t, a);
    if a.Step? {
      assert ThreadOk(w, s, t);
      if s'.log != s.log {
        var old_ := s.mem[s.threads[t].call.addr];
        assert s'.log == s.log + [Atomic(t, s.threads[t].call, old_)];
      }
    } else if a.Interfere? {
      assert s'.log == s.log + [Store(a.addr, a.v)];
    }
  }

  /** What a call makes of the value it finds, and what it returns, operation by operation. */
  function Outcome(c: Call, v: nat): (nat, nat) {
    var m := if c.width.Narrow? then 0x1_0000_0000 else 0x1_0000_0000_0000_0000;
    if c.kind.Xchg? then (c.kind.new_ % m, v)
    else if c.kind.Xadd? then ((v + c.kind.inc) % m, v)
    else if v == c.kind.cmp % m then (c.kind.new_ % m, 0)
    else (v, 1)
  }

  /** A finished call took effect exactly once, after it began, and returns what that one atomic
      operation returns. */
  lemma FinishedCall(w: Widths, mem0: map<Addr, nat>, run: seq<State>, n: nat, t: Tid) returns (at: nat)
    requires IsRun(w, mem0, run) && n < |run| && t in run[n].threads && run[n].threads[t].Done?
    ensures var d := run[n].threads[t];
            && d.start <= at < |run[n].log|
            && run[n].log[at].Atomic? && run[n].log[at].t == t && run[n].log[at].call == d.call
            && d.result == Outcome(d.call, run[n].log[at].old_).1
    ensures forall j :: run[n].threads[t].start <= j < |run[n].log| && run[n].log[j].Atomic? && run[n].log[j].t == t ==> j == at
  {
    RunKeepsInv(w, mem0, run, n);
    assert ThreadOk(w, run[n], t);
    at := run[n].threads[t].at.value;
  }

  /** The memory just before and just after the one moment at which a finished call took effect. */
  lemma EffectAt(w: Widths, mem0: map<Addr, nat>, run: seq<State>, n: nat, t: Tid) returns (at: nat)
    requires IsRun(w, mem0, run) && n < |run| && t in run[n].threads && run[n].threads[t].Done?
    ensures var d := run[n].threads[t];
            d.start <= at < |run[n].log| &&
            var before, after := Replay(mem0, run[n].log[..at]), Replay(mem0, run[n].log[..at + 1]);
            && d.call.addr in before && d.result == Outcome(d.call, before[d.call.addr]).1
            && after == before[d.call.addr := Outcome(d.call, before[d.call.addr]).0]
  {
    at := FinishedCall(w, mem0, run, n, t);
    Linearizable(w, mem0, run, n);
    assert run[n].log[..at + 1][..at] == run[n].log[..at];
  }

  /** The exclusive-or with 1 that turns rscratch1 into the Java result. */
  function JavaResult(r: nat): nat { if r % 2 == 0 then r + 1 else r - 1 }

  /** A finished compare-and-swap reports 1 iff, at its one moment of effect, memory held the expected
      value and was replaced by the new one; otherwise it reports 0 and changed nothing. */
  lemma CasReportsSwap(w: Widths, mem0: map<Addr, nat>, run: seq<State>, n: nat, t: Tid) returns (at: nat)
    requires IsRun(w, mem0, run) && n < |run| && t in run[n].threads
    requires run[n].threads[t].Done? && run[n].threads[t].call.kind.Cas?
    ensures var d := run[n].threads[t];
            d.start <= at < |run[n].log| &&
            var m := if d.call.width.Narrow? then 0x1_0000_0000 else 0x1_0000_0000_0000_0000;
            var before, after := Replay(mem0, run[n].log[..at]), Replay(mem0, run[n].log[..at + 1]);
            && d.call.addr in before
            && JavaResult(d.result) == (if before[d.call.addr] == d.call.kind.cmp % m then 1 else 0)
            && after == (if JavaResult(d.result) == 1 then before[d.call.addr := d.call.kind.new_ % m] else before)
  {
    at := EffectAt(w, mem0, run, n, t);
    var before := Replay(mem0, run[n].log[..at]);
    var a := run[n].threads[t].call.addr;
    assert before[a := before[a]] == before;
  }

  /** A finished exchange replaced the content of its cell by its new value, and nothing else, at one moment, and
      returns what the cell held just before. */
  lemma ExchangeReplaces(w: Widths, mem0: map<Addr, nat>, run: seq<State>, n: nat, t: Tid) returns (at: nat)
    requires IsRun(w, mem0, run) && n < |run| && t in run[n].threads
    requires run[n].threads[t].Done? && run[n].threads[t].call.kind.Xchg?
    ensures var d := run[n].threads[t];
            d.start <= at < |run[n].log| &&
            var m := if d.call.width.Narrow? then 0x1_0000_0000 else 0x1_0000_0000_0000_0000;
            var before, after := Replay(mem0, run[n].log[..at]), Replay(mem0, run[n].log[..at + 1]);
            && d.call.addr in before && d.result == before[d.call.addr]
            && after == before[d.call.addr := d.call.kind.new_ % m]
  {
    at := EffectAt(w, mem0, run, n, t);
  }

  /** A finished add increased its cell by its increment, and nothing else, at one moment, and returns what the cell
      held just before. */
  lemma AddIncreases(w: Widths, mem0: map<Addr, nat>, run: seq<State>, n: nat, t: Tid) returns (at: nat)
    requires IsRun(w, mem0, run) && n < |run| && t in run[n].threads
    requires run[n].threads[t].Done? && run[n].threads[t].call.kind.Xadd?
    ensures var d := run[n].threads[t];
            d.start <= at < |run[n].log| &&
            var m := if d.call.width.Narrow? then 0x1_0000_0000 else 0x1_0000_0000_0000_0000;
            var before, after := Replay(mem0, run[n].log[..at]), Replay(mem0, run[n].log[..at + 1]);
            && d.call.addr in before && d.result == before[d.call.addr]
            && after == before[d.call.addr := (before[d.call.addr] + d.call.kind.inc) % m]
  {
    at := EffectAt(w, mem0, run, n, t);
  }

  // ---------- conservation ----------

  predicate Touches(e: Event, a: Addr) {
    match e
    case Atomic(_, c, _) => c.addr == a
    case Store(b, _) => b == a
  }

  ghost predicate OnlyAdds(log: seq<Event>, a: Addr) {
    forall i :: 0 <= i < |log| && Touches(log[i], a) ==> log[i].Atomic? && log[i].call.kind.Xadd?
  }

  /** The sum of the increments that have taken effect on cell a. */
  function Added(log: seq<Event>, a: Addr): nat {
    if log == [] then 0
    else
      var e := log[|log| - 1];
      Added(log[..|log| - 1], a) + if Touches(e, a) && e.Atomic? && e.call.kind.Xadd? then e.call.kind.inc else 0
  }

  function Wrap(w: Width, x: nat): nat { x % w.Modulus() }

  lemma ModIs(w: Width, v: int, k: int, r: int)
    requires v == w.Modulus() * k + r && 0 <= r < w.Modulus()
    ensures v % w.Modulus() == r
  {
  }

  lemma WrapAdd(w: Width, x: nat, y: nat)
    ensures Wrap(w, Wrap(w, x) + y) == Wrap(w, x + y)
  {
    var m := w.Modulus();
    var q, z := x / m, (x + y) / m;
    ModIs(w, x % m + y, z - q, (x + y) % m);
  }

  lemma {:induction false} AddsConserve(w: Widths, mem0: map<Addr, nat>, log: seq<Event>, a: Addr)
    requires Sequential(mem0, log) && WidthsOk(w, log) && OnlyAdds(log, a)
    requires a in w && a in mem0 && mem0[a] < w[a].Modulus()
    ensures a in Replay(mem0, log) && Replay(mem0, log)[a] == Wrap(w[a], mem0[a] + Added(log, a))
  {
    if log != [] {
      var prefix := log[..|log| - 1];
      var e := log[|log| - 1];
      PrefixSequential(mem0, log, |log| - 1);
      AddsConserve(w, mem0, prefix, a);
      if Touches(e, a) {
        WrapAdd(w[a], mem0[a] + Added(prefix, a), e.call.kind.inc);
      }
    }
  }

  lemma PrefixSequential(mem0: map<Addr, nat>, log: seq<Event>, k: nat)
    requires Sequential(mem0, log) && k <= |log|
    ensures Sequential(mem0, log[..k])
  {
    forall i | 0 <= i < k && log[..k][i].Atomic?
      ensures var m := Replay(mem0, log[..k][..i]); log[..k][i].call.addr in m && m[log[..k][i].call.addr] == log[..k][i].old_
    {
      assert log[..k][..i] == log[..i];
    }
  }

  /** On a cell that is only ever added to, memory is the initial value plus all increments that took
      effect, modulo the cell's width. */
  lemma XaddConserves(w: Widths, mem0: map<Addr, nat>, run: seq<State>, n: nat, a: Addr)
    requires IsRun(w, mem0, run) && n < |run| && a in w && OnlyAdds(run[n].log, a)
    ensures a in run[n].mem && run[n].mem[a] == Wrap(w[a], mem0[a] + Added(run[n].log, a))
  {
    RunKeepsInv(w, mem0, run, n);
    AddsConserve(w, mem0, run[n].log, a);
  }

  /** On such a cell a finished add returns the initial value plus the increments that took effect
      before its own. */
  lemma XaddReturnsPrefixSum(w: Widths, mem0: map<Addr, nat>, run: seq<State>, n: nat, t: Tid) returns (at: nat)
    requires IsRun(w, mem0, run) && n < |run| && t in run[n].threads && run[n].threads[t].Done?
    requires run[n].threads[t].call.addr in w && OnlyAdds(run[n].log, run[n].threads[t].call.addr)
    ensures var d, log := run[n].threads[t], run[n].log;
            && d.start <= at < |log| && log[at].Atomic? && log[at].t == t && log[at].call == d.call
            && d.result == Wrap(w[d.call.addr], mem0[d.call.addr] + Added(log[..at], d.call.addr))
  {
    at := FinishedCall(w, mem0, run, n, t);
    RunKeepsInv(w, mem0, run, n);
    var log := run[n].log;
    var a := log[at].call.addr;
    PrefixSequential(mem0, log, at);
    AddsConserve(w, mem0, log[..at], a);
    assert Touches(log[at], a);
  }

  ghost predicate NoInterference(log: seq<Event>, a: Addr) {
    forall i :: 0 <= i < |log| && Touches(log[i], a) ==> log[i].Atomic?
  }

  /** The values the operations on cell a found, in the order they took effect ... */
  function Found(log: seq<Event>, a: Addr): seq<nat> {
    if log == [] then []
    else
      var e := log[|log| - 1];
      Found(log[..|log| - 1], a) + if Touches(e, a) && e.Atomic? then [e.old_] else []
  }

  /** ... and the values they left. */
  function Left(log: seq<Event>, a: Addr): seq<nat> {
    if log == [] then []
    else
      var e := log[|log| - 1];
      Left(log[..|log| - 1], a) + if Touches(e, a) && e.Atomic? then [Outcome(e.call, e.old_).0] else []
  }

  lemma {:induction false} ValuesChain(mem0: map<Addr, nat>, log: seq<Event>, a: Addr)
    requires Sequential(mem0, log) && NoInterference(log, a) && a in mem0
    ensures a in Replay(mem0, log)
    ensures Found(log, a) + [Replay(mem0, log)[a]] == [mem0[a]] + Left(log, a)
  {
    if log != [] {
      var prefix, e := log[..|log| - 1], log[|log| - 1];
      PrefixSequential(mem0, log, |log| - 1);
      ValuesChain(mem0, prefix, a);
      if Touches(e, a) {
        var v := Replay(mem0, prefix)[a];
        var v' := e.call.Stored(v);
        assert e.old_ == v && Replay(mem0, log)[a] == v';
        assert Found(log, a) + [v'] == (Found(prefix, a) + [v]) + [v'];
        assert [mem0[a]] + Left(log, a) == ([mem0[a]] + Left(prefix, a)) + [v'];
      } else {
        assert Found(log, a) == Found(prefix, a) && Left(log, a) == Left(prefix, a);
      }
    }
  }

  /** No value put into a cell is lost or duplicated: the values found by the operations, followed by
      the final content, are the initial content followed by the values they left. */
  lemma ExchangeChain(w: Widths, mem0: map<Addr, nat>, run: seq<State>, n: nat, a: Addr)
    requires IsRun(w, mem0, run) && n < |run| && a in w && NoInterference(run[n].log, a)
    ensures a in run[n].mem
    ensures Found(run[n].log, a) + [run[n].mem[a]] == [mem0[a]] + Left(run[n].log, a)
    ensures multiset(Found(run[n].log, a)) + multiset{run[n].mem[a]} == multiset{mem0[a]} + multiset(Left(run[n].log, a))
  {
    RunKeepsInv(w, mem0, run, n);
    ValuesChain(mem0, run[n].log, a);
    assert multiset(Found(run[n].log, a) + [run[n].mem[a]]) == multiset([mem0[a]] + Left(run[n].log, a));
  }

  // ---------- an undisturbed call ----------

  /** Runs up to k instructions of t's call, each store-exclusive succeeding when the monitor is held. */
  function Solo(s: State, t: Tid, k: nat): State
    requires t in s.threads
    decreases k
  {
    if k == 0 || !s.threads[t].Running? || s.threads[t].call.addr !in s.mem then s
    else Solo(Exec(s, t, true), t, k - 1)
  }

  lemma SoloStep(s: State, t: Tid, k: nat)
    requires t in s.threads && s.threads[t].Running? && s.threads[t].call.addr in s.mem && k > 0
    ensures Solo(s, t, k) == Solo(Exec(s, t, true), t, k - 1)
  {
  }

  /** Without interference the call ends as its atomic operation on the value memory held. */
  ghost predicate Finishes(s: State, t: Tid, k: nat)
    requires t in s.threads && s.threads[t].Running? && s.threads[t].call.addr in s.mem
  {
    var c := s.threads[t].call;
    var v := s.mem[c.addr];
    var s' := Solo(s, t, k);
    && t in s'.threads && s'.threads[t].Done? && s'.threads[t].result == Outcome(c, v).1
    && s'.mem == s.mem[c.addr := Outcome(c, v).0]
  }

  lemma SoloXadd(s: State, t: Tid, k: nat)
    requires t in s.threads && s.threads[t].Running? && s.threads[t].call.addr in s.mem && k >= 4
    requires s.threads[t].pc == AddLoad && s.threads[t].call.kind.Xadd?
    ensures Finishes(s, t, k)
  {
    var s1 := Exec(s, t, true);
    var s2 := Exec(s1, t, true);
    var s3 := Exec(s2, t, true);
    SoloStep(s, t, k);
    SoloStep(s1, t, k - 1);
    SoloStep(s2, t, k - 2);
    SoloStep(s3, t, k - 3);
  }

  lemma SoloXchg(s: State, t: Tid, k: nat)
    requires t in s.threads && s.threads[t].Running? && s.threads[t].call.addr in s.mem && k >= 3
    requires s.threads[t].pc == XchgLoad && s.threads[t].call.kind.Xchg?
    ensures Finishes(s, t, k)
  {
    var s1 := Exec(s, t, true);
    var s2 := Exec(s1, t, true);
    SoloStep(s, t, k);
    SoloStep(s1, t, k - 1);
    SoloStep(s2, t, k - 2);
  }

  lemma SoloCasMismatch(s: State, t: Tid, k: nat)
    requires t in s.threads && s.threads[t].Running? && s.threads[t].call.addr in s.mem && k >= 4
    requires s.threads[t].pc == CasLoad && s.threads[t].call.kind.Cas?
    requires var c := s.threads[t].call; s.mem[c.addr] != c.kind.cmp % c.width.Modulus()
    ensures Finishes(s, t, k)
  {
    var s1 := Exec(s, t, true);
    var s2 := Exec(s1, t, true);
    var s3 := Exec(s2, t, true);
    SoloStep(s, t, k);
    SoloStep(s1, t, k - 1);
    SoloStep(s2, t, k - 2);
    SoloStep(s3, t, k - 3);
  }

  lemma SoloCasMatch(s: State, t: Tid, k: nat)
    requires t in s.threads && s.threads[t].Running? && s.threads[t].call.addr in s.mem && k >= 6
    requires s.threads[t].pc == CasLoad && s.threads[t].call.kind.Cas?
    requires var c := s.threads[t].call; s.mem[c.addr] == c.kind.cmp % c.width.Modulus()
    ensures Finishes(s, t, k)
  {
    var s1 := Exec(s, t, true);
    var s2 := Exec(s1, t, true);
    var s3 := Exec(s2, t, true);
    var s4 := Exec(s3, t, true);
    var s5 := Exec(s4, t, true);
    SoloStep(s, t, k);
    SoloStep(s1, t, k - 1);
    SoloStep(s2, t, k - 2);
    SoloStep(s3, t, k - 3);
    SoloStep(s4, t, k - 4);
    SoloStep(s5, t, k - 5);
  }

  /** Without interference every call finishes within six instructions. */
  lemma SoloFinishes(s: State, t: Tid, k: nat)
    requires t in s.threads && s.threads[t].Running? && s.threads[t].call.addr in s.mem && k >= 6
    requires s.threads[t].pc == FirstPc(s.threads[t].call.kind)
    ensures Finishes(s, t, k)
  {
    var c := s.threads[t].call;
    match c.kind
    case Xadd(_) => SoloXadd(s, t, k);
    case Xchg(_) => SoloXchg(s, t, k);
    case Cas(cmp, _) =>
      if s.mem[c.addr] == cmp % c.width.Modulus() {
        SoloCasMatch(s, t, k);
      } else {
        SoloCasMismatch(s, t, k);
      }
  }
}
