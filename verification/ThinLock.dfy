/**
 * C1's stack-locking fast paths, run by any number of threads on any number of objects.
 *
 * Each emitted instruction of `lock_object` and `unlock_object` is one step, and the steps of
 * different threads interleave arbitrarily. `cmpxchgptr` is taken apart into its load-exclusive /
 * compare / store-exclusive loop, so atomicity of the header update is proved, not assumed.
 */
module ThinLock {
  import opened Words

  type Tid = nat
  type Obj = nat
  type Addr = nat

  // ---------- memory layout ----------

  /** A BasicObjectLock: the displaced header at offset 0, the object at offset 8. */
  const RECORD_SIZE: nat := 16

  /** The records at a and b have no word in common. */
  predicate NoOverlap(a: Addr, b: Addr) { a + RECORD_SIZE <= b || b + RECORD_SIZE <= a }

  /** A thread stack occupies [base, top); its lowest page is a guard page that holds no frame. */
  datatype Stack = Stack(base: Addr, top: Addr)

  datatype Layout = Layout(logPage: nat, stacks: map<Tid, Stack>) {
    function Page(): nat { Pow2(logPage) }

    ghost predicate Valid() {
      && 3 <= logPage < 64
      && (forall t {:trigger StackOk(t)} :: t in stacks ==> StackOk(t))
      && (forall t, u {:trigger Apart(t, u)} :: t in stacks && u in stacks && t != u ==> Apart(t, u))
    }

    predicate StackOk(t: Tid)
      requires t in stacks
    {
      0 < stacks[t].base && stacks[t].base + Page() <= stacks[t].top <= WORD
    }

    predicate Apart(t: Tid, u: Tid)
      requires t in stacks && u in stacks
    {
      stacks[t].top <= stacks[u].base || stacks[u].top <= stacks[t].base
    }

    /** `a` may hold a lock record of thread `t`: above the guard page, inside the stack, aligned. */
    predicate InStack(t: Tid, a: Addr) {
      t in stacks && stacks[t].base + Page() <= a && a + RECORD_SIZE <= stacks[t].top && a % 8 == 0
    }

    predicate ValidSp(t: Tid, sp: Addr) {
      t in stacks && stacks[t].base + Page() <= sp <= stacks[t].top && sp % 8 == 0
    }
  }

  // ---------- state ----------

  /** A lock record that is held: the address of its BasicObjectLock and the object it locks. */
  datatype Rec = Rec(slot: Addr, obj: Obj)

  /** The instruction a thread executes next, with the registers that are live there. */
  datatype Pc =
    | Idle
    | LockSaveObj(o: Obj, slot: Addr)              // str obj, [disp_hdr, #obj_offset]
    | LockLoad(o: Obj, slot: Addr)                 // ldr hdr, [obj]
    | LockMark(o: Obj, slot: Addr, hdr: nat)       // orr hdr, hdr, #unlocked_value
    | LockSaveHdr(o: Obj, slot: Addr, hdr: nat)    // str hdr, [disp_hdr]
    | LockLdx(o: Obj, slot: Addr, hdr: nat)        // ldaxr tmp, [obj]
    | LockCmp(o: Obj, slot: Addr, hdr: nat, tmp: nat)  // cmp tmp, hdr; br NE (fail: mov hdr, tmp)
    | LockStx(o: Obj, slot: Addr, hdr: nat)        // stlxr tmp, disp_hdr, [obj]; cbz done; b retry
    | LockSub(o: Obj, slot: Addr, hdr: nat)        // sub hdr, hdr, sp
    | LockMask(o: Obj, slot: Addr, hdr: nat)       // ands hdr, hdr, #(7 - page)
    | LockSaveRes(o: Obj, slot: Addr, hdr: nat)    // str hdr, [disp_hdr]
    | LockTest(o: Obj, slot: Addr, hdr: nat)       // cbnz hdr, slow_case
    | UnlockLoad(slot: Addr)                       // ldr hdr, [disp_hdr]
    | UnlockTest(slot: Addr, hdr: nat)             // cbz hdr, done
    | UnlockObj(slot: Addr, hdr: nat)              // ldr obj, [disp_hdr, #obj_offset]
    | UnlockLdx(slot: Addr, hdr: nat, o: Obj)      // ldaxr tmp, [obj]
    | UnlockCmp(slot: Addr, hdr: nat, o: Obj, tmp: nat)  // cmp tmp, disp_hdr; br NE
    | UnlockStx(slot: Addr, hdr: nat, o: Obj)      // stlxr tmp, hdr, [obj]; cbz done; b retry
    | UnlockSlow                                   // the runtime unlock call

  /** `recs` lists the records the thread holds, innermost last. */
  datatype Thread = Thread(sp: Addr, recs: seq<Rec>, pc: Pc)

  /** `monitors[t] == o` means t's exclusive monitor still covers the header of o. */
  datatype State = State(
    header: map<Obj, nat>,
    disp: map<Addr, nat>,
    slotObj: map<Addr, Obj>,
    threads: map<Tid, Thread>,
    monitors: map<Tid, Obj>)

  function Read<T>(m: map<Addr, T>, a: Addr, default: T): T { if a in m then m[a] else default }

  predicate Holds(th: Thread, o: Obj) { exists i :: 0 <= i < |th.recs| && th.recs[i].obj == o }

  /** The outermost record of its object in this thread. */
  predicate IsOuter(recs: seq<Rec>, i: nat)
    requires i < |recs|
  {
    forall j :: 0 <= j < i ==> recs[j].obj != recs[i].obj
  }

  // ---------- steps ----------

  /** What a thread may do next. `Run` executes one instruction; a store-exclusive fails whenever
      the monitor was lost and may also fail spuriously (`stxOk == false`). */
  datatype Action = BeginLock(o: Obj, slot: Addr) | BeginUnlock | MoveSp(sp: Addr) | Run(stxOk: bool)

  ghost predicate FreshSlot(l: Layout, t: Tid, th: Thread, slot: Addr) {
    l.InStack(t, slot) && th.sp <= slot && forall i :: 0 <= i < |th.recs| ==> NoOverlap(th.recs[i].slot, slot)
  }

  ghost predicate Enabled(l: Layout, s: State, t: Tid, a: Action) {
    t in s.threads &&
    var th := s.threads[t];
    match a
    case BeginLock(o, slot) => th.pc.Idle? && o in s.header && FreshSlot(l, t, th, slot)
    case BeginUnlock => th.pc.Idle? && |th.recs| > 0
    case MoveSp(sp) =>
      th.pc.Idle? && l.ValidSp(t, sp) && forall i :: 0 <= i < |th.recs| ==> sp <= th.recs[i].slot
    case Run(_) => !th.pc.Idle? && !th.pc.UnlockSlow?
  }

  function Goto(s: State, t: Tid, pc: Pc): State
    requires t in s.threads
  {
    s.(threads := s.threads[t := s.threads[t].(pc := pc)])
  }

  /** A store to the header of o breaks every exclusive monitor on it. */
  function StoreHeader(s: State, o: Obj, v: nat): State {
    s.(header := s.header[o := v], monitors := map u | u in s.monitors && s.monitors[u] != o :: s.monitors[u])
  }

  function Acquire(s: State, t: Tid, r: Rec): State
    requires t in s.threads
  {
    s.(threads := s.threads[t := s.threads[t].(recs := s.threads[t].recs + [r], pc := Idle)])
  }

  function DropLast(recs: seq<Rec>): seq<Rec> { if recs == [] then [] else recs[..|recs| - 1] }

  function Release(s: State, t: Tid): State
    requires t in s.threads
  {
    var th := s.threads[t];
    s.(threads := s.threads[t := th.(recs := DropLast(th.recs), pc := Idle)])
  }

  predicate StoreExclusiveOk(s: State, t: Tid, o: Obj, stxOk: bool) {
    stxOk && t in s.monitors && s.monitors[t] == o
  }

  /** The immediate `aligned_mask - page_size`, sign-extended to a 64-bit word. */
  function PageBits(l: Layout): nat { (7 - l.Page()) % WORD }

  function Exec(l: Layout, s: State, t: Tid, stxOk: bool): State
    requires t in s.threads && !s.threads[t].pc.Idle? && !s.threads[t].pc.UnlockSlow?
  {
    var th := s.threads[t];
    match th.pc
    case LockSaveObj(o, slot) => Goto(s.(slotObj := s.slotObj[slot := o]), t, LockLoad(o, slot))
    case LockLoad(o, slot) => Goto(s, t, LockMark(o, slot, Read(s.header, o, 0)))
    case LockMark(o, slot, hdr) => Goto(s, t, LockSaveHdr(o, slot, if hdr % 2 == 0 then hdr + 1 else hdr))
    case LockSaveHdr(o, slot, hdr) => Goto(s.(disp := s.disp[slot := hdr]), t, LockLdx(o, slot, hdr))
    case LockLdx(o, slot, hdr) =>
      Goto(s.(monitors := s.monitors[t := o]), t, LockCmp(o, slot, hdr, Read(s.header, o, 0)))
    case LockCmp(o, slot, hdr, tmp) =>
      if tmp == hdr then Goto(s, t, LockStx(o, slot, hdr)) else Goto(s, t, LockSub(o, slot, tmp))
    case LockStx(o, slot, hdr) =>
      if StoreExclusiveOk(s, t, o, stxOk) then Acquire(StoreHeader(s, o, slot), t, Rec(slot, o))
      else Goto(s.(monitors := s.monitors - {t}), t, LockLdx(o, slot, hdr))
    case LockSub(o, slot, hdr) => Goto(s, t, LockMask(o, slot, (hdr - th.sp) % WORD))
    case LockMask(o, slot, hdr) => Goto(s, t, LockSaveRes(o, slot, And(hdr, PageBits(l))))
    case LockSaveRes(o, slot, hdr) => Goto(s.(disp := s.disp[slot := hdr]), t, LockTest(o, slot, hdr))
    case LockTest(o, slot, hdr) => if hdr != 0 then Goto(s, t, Idle) else Acquire(s, t, Rec(slot, o))
    case UnlockLoad(slot) => Goto(s, t, UnlockTest(slot, Read(s.disp, slot, 0)))
    case UnlockTest(slot, hdr) =>
      if hdr == 0 then Release(s, t) else Goto(s, t, UnlockObj(slot, hdr))
    case UnlockObj(slot, hdr) => Goto(s, t, UnlockLdx(slot, hdr, Read(s.slotObj, slot, 0)))
    case UnlockLdx(slot, hdr, o) =>
      Goto(s.(monitors := s.monitors[t := o]), t, UnlockCmp(slot, hdr, o, Read(s.header, o, 0)))
    case UnlockCmp(slot, hdr, o, tmp) =>
      if tmp == slot then Goto(s, t, UnlockStx(slot, hdr, o)) else Goto(s, t, UnlockSlow)
    case UnlockStx(slot, hdr, o) =>
      if StoreExclusiveOk(s, t, o, stxOk) then Release(StoreHeader(s, o, hdr), t)
      else Goto(s.(monitors := s.monitors - {t}), t, UnlockLdx(slot, hdr, o))
  }

  function Apply(l: Layout, s: State, t: Tid, a: Action): State
    requires Enabled(l, s, t, a)
  {
    var th := s.threads[t];
    match a
    case BeginLock(o, slot) => Goto(s, t, LockSaveObj(o, slot))
    case BeginUnlock => Goto(s, t, UnlockLoad(th.recs[|th.recs| - 1].slot))
    case MoveSp(sp) => s.(threads := s.threads[t := th.(sp := sp)])
    case Run(stxOk) => Exec(l, s, t, stxOk)
  }

  // ---------- runs ----------

  /** All objects unlocked (low bits 001, a biased pattern 101 is excluded), nothing held. */
  ghost predicate Init(l: Layout, orig: map<Obj, nat>, s: State) {
    && s.header == orig
    && (forall o :: o in orig ==> orig[o] % 8 == 1 && orig[o] < WORD)
    && s.threads.Keys == l.stacks.Keys
    && (forall t :: t in s.threads ==> l.ValidSp(t, s.threads[t].sp) && s.threads[t].recs == [] && s.threads[t].pc.Idle?)
    && s.monitors == map[]
  }

  ghost predicate Next(l: Layout, s: State, s': State) {
    exists t, a :: Enabled(l, s, t, a) && s' == Apply(l, s, t, a)
  }

  ghost predicate IsRun(l: Layout, orig: map<Obj, nat>, run: seq<State>) {
    && l.Valid()
    && |run| > 0
    && Init(l, orig, run[0])
    && forall i :: 0 <= i < |run| - 1 ==> Next(l, run[i], run[i + 1])
  }
}
