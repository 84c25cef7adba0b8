/** Every retry loop of `Atomics` takes effect exactly once, atomically, between its first and last
    instruction; conservation of sums and of exchanged values follows. */
module AtomicsRefinement {
  import opened Options
  import opened Atomics

  // ---------- the invariant ----------

  /** t's monitor, if it still covers the cell, guarantees the cell holds v. */
  ghost predicate Guarded(s: State, t: Tid, a: Addr, v: nat) {
    a in s.mem && (t in s.monitors && s.monitors[t] == a ==> s.mem[a] == v)
  }

  /** The call has taken effect within its own interval, on the value `old_`. */
  ghost predicate Took(s: State, t: Tid, c: Call, start: nat, at: Option<nat>, old_: nat) {
    at.Some? && start <= at.value < |s.log| && s.log[at.value] == Atomic(t, c, old_)
  }

  ghost predicate PcOk(s: State, t: Tid, c: Call, pc: Pc, start: nat, at: Option<nat>) {
    var m := c.width.Modulus();
    var cmp := c.kind.Cmpval() % m;
    match pc
    case CasLoad => c.kind.Cas? && at.None?
    case CasCmp(r) => c.kind.Cas? && if r == cmp then at.None? && Guarded(s, t, c.addr, r) else Took(s, t, c, start, at, r)
    case CasSet(ne) => c.kind.Cas? && Decided(s, t, c, start, at, ne)
    case CasBranch(ne, r) => c.kind.Cas? && Decided(s, t, c, start, at, ne) && r == if ne then 1 else 0
    case CasStore => c.kind.Cas? && at.None? && Guarded(s, t, c.addr, cmp)
    case CasRetry(r) => c.kind.Cas? && if r == 0 then Took(s, t, c, start, at, cmp) else at.None?
    case AddLoad => c.kind.Xadd? && at.None?
    case AddAdd(dst) => c.kind.Xadd? && at.None? && Guarded(s, t, c.addr, dst)
    case AddStore(dst, sum) =>
      c.kind.Xadd? && at.None? && Guarded(s, t, c.addr, dst) && sum == (dst + c.kind.Inc()) % m
    case AddRetry(dst, st) => c.kind.Xadd? && if st == 0 then Took(s, t, c, start, at, dst) else at.None?
    case XchgLoad => c.kind.Xchg? && at.None?
    case XchgStore(dst) => c.kind.Xchg? && at.None? && Guarded(s, t, c.addr, dst)
    case XchgRetry(dst, st) => c.kind.Xchg? && if st == 0 then Took(s, t, c, start, at, dst) else at.None?
  }

  /** After the compare: a mismatch has already taken effect, a match is still pending. */
  ghost predicate Decided(s: State, t: Tid, c: Call, start: nat, at: Option<nat>, ne: bool) {
    var cmp := c.kind.Cmpval() % c.width.Modulus();
    if ne then exists v :: v != cmp && Took(s, t, c, start, at, v)
    else at.None? && Guarded(s, t, c.addr, cmp)
  }

  /** Of t's events since the call began, only the one at `at` exists. */
  ghost predicate OnlyEffect(log: seq<Event>, t: Tid, start: nat, at: Option<nat>) {
    forall j :: start <= j < |log| && log[j].Atomic? && log[j].t == t ==> at == Some(j)
  }

  ghost predicate ThreadOk(w: Widths, s: State, t: Tid) {
    t in s.threads &&
    match s.threads[t]
    case Idle => true
    case Running(c, pc, start, at) =>
      && c.addr in w && c.width == w[c.addr] && start <= |s.log| && PcOk(s, t, c, pc, start, at)
      && OnlyEffect(s.log, t, start, at)
    case Done(c, result, start, at) =>
      (exists v :: Took(s, t, c, start, at, v) && result == c.Returned(v)) && OnlyEffect(s.log, t, start, at)
  }

  /** Every operation used its cell at the cell's width. */
  ghost predicate WidthsOk(w: Widths, log: seq<Event>) {
    forall i :: 0 <= i < |log| && log[i].Atomic? ==> log[i].call.addr in w && log[i].call.width == w[log[i].call.addr]
  }

  ghost predicate Inv(w: Widths, mem0: map<Addr, nat>, s: State) {
    && s.mem.Keys == w.Keys
    && WidthsOk(w, s.log)
    && Sequential(mem0, s.log)
    && s.mem == Replay(mem0, s.log)
    && forall t {:trigger ThreadOk(w, s, t)} :: t in s.threads ==> ThreadOk(w, s, t)
  }

  // ---------- log ----------

  lemma AppendEvent(mem0: map<Addr, nat>, log: seq<Event>, e: Event)
    requires Sequential(mem0, log)
    requires e.Atomic? ==> var m := Replay(mem0, log); e.call.addr in m && m[e.call.addr] == e.old_
    ensures Sequential(mem0, log + [e])
    ensures Replay(mem0, log + [e]) ==
              match e { case Atomic(_, c, old_) => Replay(mem0, log)[c.addr := c.Stored(old_)] case Store(a, v) => Replay(mem0, log)[a := v] }
  {
    var log' := log + [e];
    assert log'[..|log|] == log;
    forall i | 0 <= i < |log'| && log'[i].Atomic?
      ensures var m := Replay(mem0, log'[..i]); log'[i].call.addr in m && m[log'[i].call.addr] == log'[i].old_
    {
      if i < |log| {
        assert log'[..i] == log[..i];
      }
    }
  }

  // ---------- frame ----------

  /** The log only grew, by events of others, and every monitor u still has covers an unchanged cell. */
  ghost predicate SameFor(s: State, s': State, u: Tid) {
    && u in s.threads && u in s'.threads && s'.threads[u] == s.threads[u]
    && s'.mem.Keys == s.mem.Keys
    && |s.log| <= |s'.log| && s'.log[..|s.log|] == s.log
    && (forall j :: |s.log| <= j < |s'.log| && s'.log[j].Atomic? ==> s'.log[j].t != u)
    && (u in s'.monitors ==> u in s.monitors && s'.monitors[u] == s.monitors[u])
    && (u in s'.monitors && s'.monitors[u] in s.mem ==> s'.mem[s'.monitors[u]] == s.mem[s'.monitors[u]])
  }

  lemma TookStable(s: State, s': State, u: Tid, t: Tid, c: Call, start: nat, at: Option<nat>, v: nat)
    requires SameFor(s, s', u) && Took(s, t, c, start, at, v)
    ensures Took(s', t, c, start, at, v)
  {
    assert s'.log[..|s.log|][at.value] == s.log[at.value];
  }

  lemma OnlyEffectStable(s: State, s': State, u: Tid, start: nat, at: Option<nat>)
    requires SameFor(s, s', u) && OnlyEffect(s.log, u, start, at)
    ensures OnlyEffect(s'.log, u, start, at)
  {
    forall j | start <= j < |s'.log| && s'.log[j].Atomic? && s'.log[j].t == u
      ensures at == Some(j)
    {
      assert s'.log[..|s.log|][j] == s.log[j];
    }
  }

  lemma ThreadStable(w: Widths, s: State, s': State, u: Tid)
    requires ThreadOk(w, s, u) && SameFor(s, s', u)
    ensures ThreadOk(w, s', u)
  {
    if !s.threads[u].Idle? {
      var th := s.threads[u];
      OnlyEffectStable(s, s', u, th.start, th.at);
      forall v | Took(s, u, th.call, th.start, th.at, v)
        ensures Took(s', u, th.call, th.start, th.at, v)
      {
        TookStable(s, s', u, u, th.call, th.start, th.at, v);
      }
    }
  }

  /** A step that leaves memory and log alone and only moves t. */
  lemma QuietStep(w: Widths, mem0: map<Addr, nat>, s: State, s': State, t: Tid)
    requires Inv(w, mem0, s) && t in s.threads
    requires s'.mem == s.mem && s'.log == s.log && s'.threads.Keys == s.threads.Keys
    requires forall u :: u in s.threads && u != t ==> s'.threads[u] == s.threads[u]
    requires forall u :: u in s'.monitors && u != t ==> u in s.monitors && s'.monitors[u] == s.monitors[u]
    requires ThreadOk(w, s', t)
    ensures Inv(w, mem0, s')
  {
    forall u | u in s'.threads
      ensures ThreadOk(w, s', u)
    {
      if u != t {
        assert ThreadOk(w, s, u);
        assert s'.log[..|s.log|] == s.log;
        ThreadStable(w, s, s', u);
      }
    }
  }

  lemma OtherThread(w: Widths, s: State, s': State, u: Tid, e: Event)
    requires ThreadOk(w, s, u) && u in s'.threads && s'.threads[u] == s.threads[u] && s'.mem.Keys == s.mem.Keys
    requires s'.log == s.log + [e] && (e.Atomic? ==> e.t != u)
    requires u in s'.monitors ==> u in s.monitors && s'.monitors[u] == s.monitors[u]
                                  && (s.monitors[u] in s.mem ==> s'.mem[s.monitors[u]] == s.mem[s.monitors[u]])
    ensures ThreadOk(w, s', u)
  {
    assert s'.log[..|s.log|] == s.log;
    ThreadStable(w, s, s', u);
  }

  /** A step that appends one event and performs exactly that event's update. */
  lemma EffectStep(w: Widths, mem0: map<Addr, nat>, s: State, s': State, t: Tid, e: Event)
    requires Inv(w, mem0, s)
    requires s'.log == s.log + [e] && s'.threads.Keys == s.threads.Keys
    requires match e
             case Atomic(_, c, old_) => c.addr in s.mem && s.mem[c.addr] == old_ && s'.mem == s.mem[c.addr := c.Stored(old_)]
             case Store(a, v) => a in s.mem && s'.mem == s.mem[a := v]
    requires forall u :: u in s.threads && (u != t || e.Store?) ==> s'.threads[u] == s.threads[u]
    requires forall u :: u in s'.monitors && (u != t || e.Store?) ==>
               u in s.monitors && s'.monitors[u] == s.monitors[u]
               && (s.monitors[u] in s.mem ==> s'.mem[s.monitors[u]] == s.mem[s.monitors[u]])
    requires e.Atomic? ==> e.t == t && ThreadOk(w, s', t) && e.call.addr in w && e.call.width == w[e.call.addr]
    ensures Inv(w, mem0, s')
  {
    AppendEvent(mem0, s.log, e);
    assert s'.mem == Replay(mem0, s'.log);
    forall u | u in s'.threads
      ensures ThreadOk(w, s', u)
    {
      if u != t || e.Store? {
        assert ThreadOk(w, s, u);
        OtherThread(w, s, s', u, e);
      }
    }
  }

  // ---------- steps ----------

  lemma CasLoadStep(w: Widths, mem0: map<Addr, nat>, s: State, t: Tid, ok: bool)
    requires Inv(w, mem0, s) && Enabled(w, s, t, Step(ok)) && s.threads[t].pc.CasLoad?
    ensures Inv(w, mem0, Exec(s, t, ok))
  {
    assert ThreadOk(w, s, t);
    var c := s.threads[t].call;
    var v := s.mem[c.addr];
    var s' := Exec(s, t, ok);
    if v != c.kind.Cmpval() % c.width.Modulus() {
      assert Took(s', t, c, s.threads[t].start, Some(|s.log|), v);
      assert s'.mem == s.mem[c.addr := c.Stored(v)];
      EffectStep(w, mem0, s, s', t, Atomic(t, c, v));
    } else {
      QuietStep(w, mem0, s, s', t);
    }
  }

  lemma StoreStep(w: Widths, mem0: map<Addr, nat>, s: State, t: Tid, ok: bool)
    requires Inv(w, mem0, s) && Enabled(w, s, t, Step(ok))
    requires s.threads[t].pc.CasStore? || s.threads[t].pc.AddStore? || s.threads[t].pc.XchgStore?
    ensures Inv(w, mem0, Exec(s, t, ok))
  {
    assert ThreadOk(w, s, t);
    var c := s.threads[t].call;
    var v := s.mem[c.addr];
    var s' := Exec(s, t, ok);
    if StoreExclusiveOk(s, t, c.addr, ok) {
      assert Took(s', t, c, s.threads[t].start, Some(|s.log|), v);
      EffectStep(w, mem0, s, s', t, Atomic(t, c, v));
    } else {
      QuietStep(w, mem0, s, s', t);
    }
  }

  lemma CasThread(w: Widths, s: State, t: Tid, ok: bool)
    requires ThreadOk(w, s, t) && Enabled(w, s, t, Step(ok))
    requires var pc := s.threads[t].pc; pc.CasCmp? || pc.CasSet? || pc.CasBranch? || pc.CasRetry?
    ensures ThreadOk(w, Exec(s, t, ok), t)
  {
    var th := s.threads[t];
    var s' := Exec(s, t, ok);
    assert forall v :: Took(s, t, th.call, th.start, th.at, v) ==> Took(s', t, th.call, th.start, th.at, v);
  }

  lemma AddXchgThread(w: Widths, s: State, t: Tid, ok: bool)
    requires ThreadOk(w, s, t) && Enabled(w, s, t, Step(ok))
    requires var pc := s.threads[t].pc; pc.AddLoad? || pc.AddAdd? || pc.AddRetry? || pc.XchgLoad? || pc.XchgRetry?
    ensures ThreadOk(w, Exec(s, t, ok), t)
  {
    var th := s.threads[t];
    var s' := Exec(s, t, ok);
    assert forall v :: Took(s, t, th.call, th.start, th.at, v) ==> Took(s', t, th.call, th.start, th.at, v);
  }

  lemma LocalStep(w: Widths, mem0: map<Addr, nat>, s: State, t: Tid, ok: bool)
    requires Inv(w, mem0, s) && Enabled(w, s, t, Step(ok))
    requires !s.threads[t].pc.CasLoad? && !s.threads[t].pc.CasStore? && !s.threads[t].pc.AddStore? && !s.threads[t].pc.XchgStore?
    ensures Inv(w, mem0, Exec(s, t, ok))
  {
    assert ThreadOk(w, s, t);
    var pc := s.threads[t].pc;
    if pc.CasCmp? || pc.CasSet? || pc.CasBranch? || pc.CasRetry? {
      CasThread(w, s, t, ok);
    } else {
      AddXchgThread(w, s, t, ok);
    }
    QuietStep(w, mem0, s, Exec(s, t, ok), t);
  }

  lemma StepKeepsInv(w: Widths, mem0: map<Addr, nat>, s: State, t: Tid, a: Action)
    requires Inv(w, mem0, s) && Enabled(w, s, t, a)
    ensures Inv(w, mem0, Apply(w, s, t, a))
  {
    match a
    case Begin(c) => QuietStep(w, mem0, s, Apply(w, s, t, a), t);
    case Return => QuietStep(w, mem0, s, Apply(w, s, t, a), t);
    case Interfere(addr, v) => EffectStep(w, mem0, s, Apply(w, s, t, a), t, Store(addr, v));
    case Step(ok) =>
      var pc := s.threads[t].pc;
      if pc.CasLoad? {
        CasLoadStep(w, mem0, s, t, ok);
      } else if pc.CasStore? || pc.AddStore? || pc.XchgStore? {
        StoreStep(w, mem0, s, t, ok);
      } else {
        LocalStep(w, mem0, s, t, ok);
      }
  }

  lemma {:induction false} RunKeepsInv(w: Widths, mem0: map<Addr, nat>, run: seq<State>, n: nat)
    requires IsRun(w, mem0, run) && n < |run|
    ensures Inv(w, mem0, run[n])
  {
    if n > 0 {
      RunKeepsInv(w, mem0, run, n - 1);
      assert Next(w, run[n - 1], run[n - 1 + 1]);
      var t, a :| Enabled(w, run[n - 1], t, a) && run[n] == Apply(w, run[n - 1], t, a);
      StepKeepsInv(w, mem0, run[n - 1], t, a);
    }
  }
}
