/**
 * C1's atomic operations: `casw`, `casl` and the add and exchange loops of `atomic_op`, each a
 * load-exclusive / store-exclusive retry loop, run by any number of threads under arbitrary
 * interleaving, interfering stores and spurious store-exclusive failures.
 *
 * `log` and the `start`/`at` fields are history variables: no instruction reads them. They record
 * the order in which the operations take effect.
 */
module Atomics {
  import opened Options

  type Tid = nat
  type Addr = nat

  /** The w forms work on 32-bit cells, the others on 64-bit cells. */
  datatype Width = Narrow | Wide {
    function Modulus(): (m: nat)
      ensures m > 0
    {
      if Narrow? then 0x1_0000_0000 else 0x1_0000_0000_0000_0000
    }
  }

  /** Operands are full registers; a narrow operation uses their low 32 bits. */
  datatype Kind = Cas(cmp: nat, new_: nat) | Xadd(inc: nat) | Xchg(new_: nat) {
    function Cmpval(): nat { if Cas? then cmp else 0 }
    function Newval(): nat { if Xadd? then 0 else new_ }
    function Inc(): nat { if Xadd? then inc else 0 }
  }

  datatype Call = Call(kind: Kind, width: Width, addr: Addr) {
    /** The one atomic step the call stands for: what it leaves in memory ... */
    function Stored(old_: nat): nat {
      var m := width.Modulus();
      match kind
      case Cas(cmp, n) => if old_ == cmp % m then n % m else old_
      case Xadd(inc) => (old_ + inc) % m
      case Xchg(n) => n % m
    }

    /** ... and what it returns: rscratch1 (zero for a swap) or the previous value. */
    function Returned(old_: nat): nat {
      match kind
      case Cas(cmp, _) => if old_ == cmp % width.Modulus() then 0 else 1
      case Xadd(_) => old_
      case Xchg(_) => old_
    }
  }

  /** The next instruction of a running call, with its live registers. */
  datatype Pc =
    | CasLoad | CasCmp(r: nat) | CasSet(ne: bool) | CasBranch(ne: bool, r: nat) | CasStore | CasRetry(r: nat)
    | AddLoad | AddAdd(dst: nat) | AddStore(dst: nat, sum: nat) | AddRetry(dst: nat, st: nat)
    | XchgLoad | XchgStore(dst: nat) | XchgRetry(dst: nat, st: nat)

  datatype Thread =
    | Idle
    | Running(call: Call, pc: Pc, start: nat, at: Option<nat>)
    | Done(call: Call, result: nat, start: nat, at: Option<nat>)

  datatype Event = Atomic(t: Tid, call: Call, old_: nat) | Store(addr: Addr, v: nat)

  datatype State = State(mem: map<Addr, nat>, monitors: map<Tid, Addr>, threads: map<Tid, Thread>, log: seq<Event>)

  /** The width of each cell never changes. */
  type Widths = map<Addr, Width>

  datatype Action = Begin(call: Call) | Step(stxOk: bool) | Return | Interfere(addr: Addr, v: nat)

  function FirstPc(k: Kind): Pc {
    match k
    case Cas(_, _) => CasLoad
    case Xadd(_) => AddLoad
    case Xchg(_) => XchgLoad
  }

  predicate Enabled(w: Widths, s: State, t: Tid, a: Action) {
    match a
    case Begin(c) => t in s.threads && s.threads[t].Idle? && c.addr in w && c.addr in s.mem && c.width == w[c.addr]
    case Step(_) => t in s.threads && s.threads[t].Running? && s.threads[t].call.addr in s.mem
    case Return => t in s.threads && s.threads[t].Done?
    case Interfere(addr, v) => addr in w && addr in s.mem && v < w[addr].Modulus()
  }

  function Goto(s: State, t: Tid, pc: Pc): State
    requires t in s.threads && s.threads[t].Running?
  {
    s.(threads := s.threads[t := s.threads[t].(pc := pc)])
  }

  function Finish(s: State, t: Tid, result: nat): State
    requires t in s.threads && s.threads[t].Running?
  {
    var th := s.threads[t];
    s.(threads := s.threads[t := Done(th.call, result, th.start, th.at)])
  }

  /** Record that t's call takes effect now. */
  function Linearize(s: State, t: Tid, old_: nat): State
    requires t in s.threads && s.threads[t].Running?
  {
    var th := s.threads[t];
    s.(threads := s.threads[t := Running(th.call, th.pc, th.start, Some(|s.log|))], log := s.log + [Atomic(t, th.call, old_)])
  }

  /** A write to memory breaks every exclusive monitor on that address. */
  function Write(s: State, a: Addr, v: nat): State {
    s.(mem := s.mem[a := v], monitors := map u | u in s.monitors && s.monitors[u] != a :: s.monitors[u])
  }

  predicate StoreExclusiveOk(s: State, t: Tid, a: Addr, stxOk: bool) {
    stxOk && t in s.monitors && s.monitors[t] == a
  }

  function LoadExclusive(s: State, t: Tid, a: Addr): State { s.(monitors := s.monitors[t := a]) }

  /** A store-exclusive: on success memory changes, the call takes effect and the status is 0. */
  function StoreExclusive(s: State, t: Tid, v: nat, stxOk: bool): (r: (State, nat))
    requires t in s.threads && s.threads[t].Running? && s.threads[t].call.addr in s.mem
    ensures t in r.0.threads && r.0.threads[t].Running?
  {
    var a := s.threads[t].call.addr;
    if StoreExclusiveOk(s, t, a, stxOk) then (Write(Linearize(s, t, s.mem[a]), a, v), 0)
    else (s.(monitors := s.monitors - {t}), 1)
  }

  function Exec(s: State, t: Tid, stxOk: bool): State
    requires t in s.threads && s.threads[t].Running? && s.threads[t].call.addr in s.mem
  {
    var th := s.threads[t];
    var c := th.call;
    var m := c.width.Modulus();
    match th.pc
    // ldaxr rscratch1, [addr]. A mismatching load is where a failing compare-and-swap takes effect.
    case CasLoad =>
      var v := s.mem[c.addr];
      var s1 := LoadExclusive(s, t, c.addr);
      var s2 := if v != c.kind.Cmpval() % m then Linearize(s1, t, v) else s1;
      Goto(s2, t, CasCmp(v))
    case CasCmp(r) => Goto(s, t, CasSet(r != c.kind.Cmpval() % m))
    case CasSet(ne) => Goto(s, t, CasBranch(ne, if ne then 1 else 0))
    case CasBranch(ne, r) => if ne then Finish(s, t, r) else Goto(s, t, CasStore)
    case CasStore =>
      var (s1, st) := StoreExclusive(s, t, c.kind.Newval() % m, stxOk);
      Goto(s1, t, CasRetry(st))
    case CasRetry(r) => if r != 0 then Goto(s, t, CasLoad) else Finish(s, t, r)
    case AddLoad => Goto(LoadExclusive(s, t, c.addr), t, AddAdd(s.mem[c.addr]))
    case AddAdd(dst) => Goto(s, t, AddStore(dst, (dst + c.kind.Inc()) % m))
    case AddStore(dst, sum) =>
      var (s1, st) := StoreExclusive(s, t, sum, stxOk);
      Goto(s1, t, AddRetry(dst, st))
    case AddRetry(dst, st) => if st != 0 then Goto(s, t, AddLoad) else Finish(s, t, dst)
    case XchgLoad => Goto(LoadExclusive(s, t, c.addr), t, XchgStore(s.mem[c.addr]))
    case XchgStore(dst) =>
      var (s1, st) := StoreExclusive(s, t, c.kind.Newval() % m, stxOk);
      Goto(s1, t, XchgRetry(dst, st))
    case XchgRetry(dst, st) => if st != 0 then Goto(s, t, XchgLoad) else Finish(s, t, dst)
  }

  function Apply(w: Widths, s: State, t: Tid, a: Action): State
    requires Enabled(w, s, t, a)
  {
    match a
    case Begin(c) => s.(threads := s.threads[t := Running(c, FirstPc(c.kind), |s.log|, None)])
    case Step(ok) => Exec(s, t, ok)
    case Return => s.(threads := s.threads[t := Idle])
    case Interfere(addr, v) => Write(s.(log := s.log + [Store(addr, v)]), addr, v)
  }

  ghost predicate Init(w: Widths, mem0: map<Addr, nat>, s: State) {
    && s.mem == mem0 && mem0.Keys == w.Keys
    && (forall a :: a in w ==> mem0[a] < w[a].Modulus())
    && (forall t :: t in s.threads ==> s.threads[t].Idle?)
    && s.monitors == map[] && s.log == []
  }

  ghost predicate Next(w: Widths, s: State, s': State) {
    exists t, a :: Enabled(w, s, t, a) && s' == Apply(w, s, t, a)
  }

  ghost predicate IsRun(w: Widths, mem0: map<Addr, nat>, run: seq<State>) {
    && |run| > 0
    && Init(w, mem0, run[0])
    && forall i :: 0 <= i < |run| - 1 ==> Next(w, run[i], run[i + 1])
  }

  // ---------- the atomic specification ----------

  /** Memory after performing the logged operations one at a time. */
  function Replay(mem0: map<Addr, nat>, log: seq<Event>): map<Addr, nat> {
    if log == [] then mem0
    else
      var m := Replay(mem0, log[..|log| - 1]);
      match log[|log| - 1]
      case Atomic(_, c, old_) => m[c.addr := c.Stored(old_)]
      case Store(a, v) => m[a := v]
  }

  /** Every logged operation saw the value its predecessors left. */
  ghost predicate Sequential(mem0: map<Addr, nat>, log: seq<Event>) {
    forall i :: 0 <= i < |log| && log[i].Atomic? ==>
      var m := Replay(mem0, log[..i]); log[i].call.addr in m && m[log[i].call.addr] == log[i].old_
  }
}
