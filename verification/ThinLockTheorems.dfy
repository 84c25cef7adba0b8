/** What the fast paths guarantee, for every run, every thread and every object. */
module ThinLockTheorems {
  import opened Words
  import opened ThinLock
  import opened ThinLockSafety
  import opened ThinLockSteps

  /** Mutual exclusion: two threads never hold the same object at the same time. */
  lemma MutualExclusion(l: Layout, orig: map<Obj, nat>, run: seq<State>, n: nat, t: Tid, u: Tid, o: Obj)
    requires IsRun(l, orig, run) && n < |run|
    requires t in run[n].threads && u in run[n].threads && Holds(run[n].threads[t], o) && Holds(run[n].threads[u], o)
    ensures t == u
  {
    RunKeepsInv(l, orig, run, n);
    Exclusive(l, orig, run[n], t, u, o);
  }

  /** The header is a stack address exactly while some thread holds the object, and then it lies in
      the holder's own stack, at or above its stack pointer; otherwise it is the original header. */
  lemma HeaderIffHeld(l: Layout, orig: map<Obj, nat>, run: seq<State>, n: nat, o: Obj)
    requires IsRun(l, orig, run) && n < |run| && o in orig
    ensures run[n].threads.Keys == l.stacks.Keys && o in run[n].header
    ensures run[n].header[o] % 8 == 0 <==> exists t :: t in run[n].threads && Holds(run[n].threads[t], o)
    ensures run[n].header[o] % 8 != 0 ==> run[n].header[o] == orig[o]
    ensures forall t :: t in run[n].threads && Holds(run[n].threads[t], o) ==>
              l.InStack(t, run[n].header[o]) && run[n].threads[t].sp <= run[n].header[o]
  {
    RunKeepsInv(l, orig, run, n);
    var s := run[n];
    forall t | t in s.threads && Holds(s.threads[t], o)
      ensures l.InStack(t, s.header[o]) && s.threads[t].sp <= s.header[o]
    {
      var i :| 0 <= i < |s.threads[t].recs| && s.threads[t].recs[i].obj == o;
      var k := HolderSlot(l, orig, s, t, i);
      assert RecsOk(l, orig, s, t);
      assert RecOk(l, orig, s, t, s.threads[t], k);
    }
    if s.header[o] != orig[o] {
      assert Owned(s, o);
      var t, i :| t in s.threads && 0 <= i < |s.threads[t].recs| && IsOuter(s.threads[t].recs, i)
                  && s.threads[t].recs[i] == Rec(s.header[o], o);
      assert Holds(s.threads[t], o);
    }
  }

  /** The two-word records in use never overlap, within a thread or across threads. */
  lemma RecordsApart(l: Layout, orig: map<Obj, nat>, run: seq<State>, n: nat, t: Tid, i: nat, u: Tid, j: nat)
    requires IsRun(l, orig, run) && n < |run| && t in run[n].threads && u in run[n].threads && (t, i) != (u, j)
    requires i < |run[n].threads[t].recs| && j < |run[n].threads[u].recs|
    ensures NoOverlap(run[n].threads[t].recs[i].slot, run[n].threads[u].recs[j].slot)
  {
    RunKeepsInv(l, orig, run, n);
    var s := run[n];
    assert RecsOk(l, orig, s, t) && RecsOk(l, orig, s, u);
    assert RecOk(l, orig, s, t, s.threads[t], i) && RecOk(l, orig, s, u, s.threads[u], j);
    if t != u {
      assert l.Apart(t, u);
    }
  }

  /** Among the records a thread holds on o, exactly one keeps the original header and the header of
      o points to it; every other one keeps zero. */
  lemma {:induction false} HeaderConserved(l: Layout, orig: map<Obj, nat>, run: seq<State>, n: nat, t: Tid, o: Obj) returns (k: nat)
    requires IsRun(l, orig, run) && n < |run| && t in run[n].threads && Holds(run[n].threads[t], o)
    ensures o in orig && o in run[n].header && orig[o] != 0
    ensures k < |run[n].threads[t].recs| && run[n].threads[t].recs[k] == Rec(run[n].header[o], o)
    ensures Read(run[n].disp, run[n].header[o], 0) == orig[o]
    ensures forall i :: 0 <= i < |run[n].threads[t].recs| && i != k && run[n].threads[t].recs[i].obj == o ==>
              i > k && run[n].threads[t].recs[i].slot != run[n].header[o] && Read(run[n].disp, run[n].threads[t].recs[i].slot, 0) == 0
  {
    RunKeepsInv(l, orig, run, n);
    var s := run[n];
    var recs := s.threads[t].recs;
    var i0 :| 0 <= i0 < |recs| && recs[i0].obj == o;
    k := HolderSlot(l, orig, s, t, i0);
    assert RecsOk(l, orig, s, t);
    assert RecOk(l, orig, s, t, s.threads[t], k);
    forall i | 0 <= i < |recs| && i != k && recs[i].obj == o
      ensures i > k && recs[i].slot != recs[k].slot && Read(s.disp, recs[i].slot, 0) == 0
    {
      assert RecOk(l, orig, s, t, s.threads[t], i);
    }
  }

  /** The last unlock of an object puts back the header it had before it was first locked. */
  lemma LastUnlockRestores(l: Layout, orig: map<Obj, nat>, run: seq<State>, n: nat, o: Obj)
    requires IsRun(l, orig, run) && n < |run| && o in orig
    requires forall t :: t in run[n].threads ==> !Holds(run[n].threads[t], o)
    ensures o in run[n].header && run[n].header[o] == orig[o]
  {
    HeaderIffHeld(l, orig, run, n, o);
  }

  /** Unlocking never needs the runtime: no thread reaches the slow case, and whenever unlock's
      compare is executed the header equals the lock record's address. */
  lemma UnlockNeverSlow(l: Layout, orig: map<Obj, nat>, run: seq<State>, n: nat, t: Tid)
    requires IsRun(l, orig, run) && n < |run| && t in run[n].threads
    ensures !run[n].threads[t].pc.UnlockSlow?
    ensures run[n].threads[t].pc.UnlockCmp? ==>
              var pc := run[n].threads[t].pc; pc.o in run[n].header && run[n].header[pc.o] == pc.slot == pc.tmp
  {
    RunKeepsInv(l, orig, run, n);
    var s := run[n];
    var th := s.threads[t];
    assert ThreadPcOk(l, s, t) && RecsOk(l, orig, s, t);
    if th.pc.UnlockCmp? {
      assert RecOk(l, orig, s, t, th, |th.recs| - 1);
    }
  }

  /** The recursive-lock test is exact: it accepts iff the thread already holds the object and its
      outermost lock record is less than one page above sp. */
  lemma RecursionTestExact(l: Layout, orig: map<Obj, nat>, run: seq<State>, n: nat, t: Tid)
    requires IsRun(l, orig, run) && n < |run| && t in run[n].threads && run[n].threads[t].pc.LockTest?
    ensures var th := run[n].threads[t];
            && th.pc.o in run[n].header
            && (th.pc.hdr == 0 <==> Holds(th, th.pc.o) && run[n].header[th.pc.o] < th.sp + l.Page())
  {
    RunKeepsInv(l, orig, run, n);
    var s := run[n];
    var th := s.threads[t];
    var o := th.pc.o;
    assert ThreadPcOk(l, s, t) && RecsOk(l, orig, s, t);
    if i :| 0 <= i < |th.recs| && th.recs[i].obj == o {
      var k := HolderSlot(l, orig, s, t, i);
      RecursiveAt(l, th, o, k);
    }
  }

  // ---------- an undisturbed attempt ----------

  /** What the subtraction and the mask leave of a header value. */
  function Distance(l: Layout, sp: Addr, h: nat): nat { And((h - sp) % WORD, PageBits(l)) }

  /** Runs k instructions of thread t, each store-exclusive succeeding when the monitor is held. */
  function Solo(l: Layout, s: State, t: Tid, k: nat): State
    requires t in s.threads
    ensures t in Solo(l, s, t, k).threads
    decreases k
  {
    if k == 0 || s.threads[t].pc.Idle? || s.threads[t].pc.UnlockSlow? then s
    else Solo(l, Exec(l, s, t, true), t, k - 1)
  }

  lemma {:induction false} SoloStep(l: Layout, s: State, t: Tid, k: nat)
    requires t in s.threads && !s.threads[t].pc.Idle? && !s.threads[t].pc.UnlockSlow? && k > 0
    ensures Solo(l, s, t, k) == Solo(l, Exec(l, s, t, true), t, k - 1)
  {
  }

  /** The first five instructions of a lock attempt, up to and including the load-exclusive. */
  lemma {:induction false} LockPrologue(l: Layout, s: State, t: Tid, o: Obj, slot: Addr, k: nat) returns (s': State)
    requires t in s.threads && s.threads[t].pc == LockSaveObj(o, slot) && o in s.header && k >= 5
    ensures t in s'.threads && Solo(l, s, t, k) == Solo(l, s', t, k - 5)
    ensures s' == s.(slotObj := s'.slotObj, disp := s'.disp, monitors := s.monitors[t := o], threads := s'.threads)
    ensures s'.threads == s.threads[t := s.threads[t].(pc := s'.threads[t].pc)]
    ensures var h := s.header[o]; s'.threads[t].pc == LockCmp(o, slot, if h % 2 == 0 then h + 1 else h, h)
  {
    var s1 := Exec(l, s, t, true);
    var s2 := Exec(l, s1, t, true);
    var s3 := Exec(l, s2, t, true);
    var s4 := Exec(l, s3, t, true);
    s' := Exec(l, s4, t, true);
    SoloStep(l, s, t, k);
    SoloStep(l, s1, t, k - 1);
    SoloStep(l, s2, t, k - 2);
    SoloStep(l, s3, t, k - 3);
    SoloStep(l, s4, t, k - 4);
  }

  /** An unlocked header is swung to the slot by the compare and the store-exclusive that follow. */
  lemma {:induction false} LockFree(l: Layout, s: State, t: Tid, o: Obj, slot: Addr, k: nat)
    requires k >= 10
    requires t in s.threads && s.threads[t].pc == LockSaveObj(o, slot) && o in s.header && s.header[o] % 2 == 1
    ensures var s' := Solo(l, s, t, k);
            && s'.threads[t].pc.Idle? && s'.threads[t].recs == s.threads[t].recs + [Rec(slot, o)]
            && s'.header == s.header[o := slot]
  {
    var s5 := LockPrologue(l, s, t, o, slot, k);
    LockWins(l, s5, t, o, slot, k - 5);
  }

  lemma {:induction false} LockWins(l: Layout, s: State, t: Tid, o: Obj, slot: Addr, k: nat)
    requires k >= 2 && t in s.threads && o in s.header && s.threads[t].pc == LockCmp(o, slot, s.header[o], s.header[o])
    requires t in s.monitors && s.monitors[t] == o
    ensures var s' := Solo(l, s, t, k);
            && s'.threads[t].pc.Idle? && s'.threads[t].recs == s.threads[t].recs + [Rec(slot, o)]
            && s'.header == s.header[o := slot]
  {
    var s1 := Goto(s, t, LockStx(o, slot, s.header[o]));
    SoloStep(l, s, t, k);
    SoloStep(l, s1, t, k - 1);
  }

  /** A header with its low bit clear fails the compare and goes to the page test. */
  lemma {:induction false} LockMismatch(l: Layout, s: State, t: Tid, o: Obj, slot: Addr, k: nat) returns (s': State)
    requires k >= 6
    requires t in s.threads && s.threads[t].pc == LockSaveObj(o, slot) && o in s.header && s.header[o] % 2 == 0
    ensures t in s'.threads && Solo(l, s, t, k) == Solo(l, s', t, k - 6)
    ensures s'.header == s.header
    ensures s'.threads == s.threads[t := s.threads[t].(pc := LockSub(o, slot, s.header[o]))]
  {
    var s5 := LockPrologue(l, s, t, o, slot, k);
    s' := Goto(s5, t, LockSub(o, slot, s.header[o]));
    SoloStep(l, s5, t, k - 5);
  }

  /** A lock attempt that no other thread interrupts ends after at most ten instructions. It acquires
      an unlocked object by swinging the header to the slot, re-enters an object of its own within a
      page, and in every other case leaves headers and records alone. */
  lemma {:induction false} SoloLock(l: Layout, orig: map<Obj, nat>, s: State, t: Tid, o: Obj, slot: Addr, k: nat)
    requires k >= 10
    requires Inv(l, orig, s) && Enabled(l, s, t, BeginLock(o, slot))
    ensures var th := s.threads[t];
            var s' := Solo(l, Apply(l, s, t, BeginLock(o, slot)), t, k);
            var free := s.header[o] == orig[o];
            && s'.threads[t].pc.Idle?
            && s'.threads[t].recs == (if free || Recursive(l, th, o) then th.recs + [Rec(slot, o)] else th.recs)
            && s'.header == (if free then s.header[o := slot] else s.header)
  {
    LockFacts(l, orig, s, t, o);
    SoloOutcome(l, s, Apply(l, s, t, BeginLock(o, slot)), t, o, slot, k);
  }

  /** What the bits of the header say. */
  lemma LockFacts(l: Layout, orig: map<Obj, nat>, s: State, t: Tid, o: Obj)
    requires Inv(l, orig, s) && t in s.threads && o in s.header
    ensures s.header[o] == orig[o] <==> s.header[o] % 2 == 1
    ensures s.header[o] != orig[o] ==> (Distance(l, s.threads[t].sp, s.header[o]) == 0 <==> Recursive(l, s.threads[t], o))
  {
    if s.header[o] != orig[o] {
      TakenFacts(l, orig, s, t, o);
    }
  }

  /** The outcome of an attempt that begins in b, in terms of the header's bits. */
  lemma {:induction false} SoloOutcome(l: Layout, s: State, b: State, t: Tid, o: Obj, slot: Addr, k: nat)
    requires k >= 10 && t in s.threads && o in s.header && b == Goto(s, t, LockSaveObj(o, slot))
    ensures var th, s' := s.threads[t], Solo(l, b, t, k);
            var free := s.header[o] % 2 == 1;
            && s'.threads[t].pc.Idle?
            && s'.threads[t].recs == (if free || Distance(l, th.sp, s.header[o]) == 0 then th.recs + [Rec(slot, o)] else th.recs)
            && s'.header == (if free then s.header[o := slot] else s.header)
  {
    if s.header[o] % 2 == 1 {
      LockFree(l, b, t, o, slot, k);
    } else {
      LockTaken(l, b, t, o, slot, k);
    }
  }

  /** A thread that locks an object it holds re-enters it iff its outermost record is less than a page above sp. */
  lemma {:induction false} OwnLockFastIff(l: Layout, orig: map<Obj, nat>, s: State, t: Tid, o: Obj, slot: Addr, k: nat)
    requires k >= 10
    requires Inv(l, orig, s) && Enabled(l, s, t, BeginLock(o, slot)) && Holds(s.threads[t], o)
    ensures var th := s.threads[t];
            var s' := Solo(l, Apply(l, s, t, BeginLock(o, slot)), t, k);
            && s'.threads[t].pc.Idle? && s'.header == s.header
            && s'.threads[t].recs == if s.header[o] < th.sp + l.Page() then th.recs + [Rec(slot, o)] else th.recs
  {
    var th := s.threads[t];
    var i :| 0 <= i < |th.recs| && th.recs[i].obj == o;
    var j := HolderSlot(l, orig, s, t, i);
    RecursiveAt(l, th, o, j);
    HeldIsTaken(l, orig, s, t, o);
    SoloLock(l, orig, s, t, o, slot, k);
  }

  lemma HeldIsTaken(l: Layout, orig: map<Obj, nat>, s: State, t: Tid, o: Obj)
    requires Inv(l, orig, s) && t in s.threads && Holds(s.threads[t], o)
    ensures o in s.header && s.header[o] != orig[o]
  {
    HeldHeaderAligned(l, orig, s, t, o);
  }

  /** The comment on the page test says `hdr <= sp + page_size`, the code rejects equality: in every run, a thread
      whose own outermost record is exactly one page above sp is sent to the slow path. */
  lemma {:induction false} PageBoundaryIsSlow(l: Layout, orig: map<Obj, nat>, run: seq<State>, n: nat, t: Tid, o: Obj, slot: Addr, k: nat)
    requires IsRun(l, orig, run) && n < |run| && k >= 10
    requires Enabled(l, run[n], t, BeginLock(o, slot)) && Holds(run[n].threads[t], o)
    requires run[n].header[o] == run[n].threads[t].sp + l.Page()
    ensures var s' := Solo(l, Apply(l, run[n], t, BeginLock(o, slot)), t, k);
            s'.threads[t].pc.Idle? && s'.header == run[n].header && s'.threads[t].recs == run[n].threads[t].recs
  {
    RunKeepsInv(l, orig, run, n);
    OwnLockFastIff(l, orig, run[n], t, o, slot, k);
  }

  lemma TakenFacts(l: Layout, orig: map<Obj, nat>, s: State, t: Tid, o: Obj)
    requires Inv(l, orig, s) && t in s.threads && o in s.header && s.header[o] != orig[o]
    ensures s.header[o] % 2 == 0
    ensures Distance(l, s.threads[t].sp, s.header[o]) == 0 <==> Recursive(l, s.threads[t], o)
  {
    TakenIsAligned(l, orig, s, o);
    TakenIsSeen(l, orig, s, t, o);
    PageMask(l, orig, s, t, o, s.header[o]);
  }

  lemma TakenIsAligned(l: Layout, orig: map<Obj, nat>, s: State, o: Obj)
    requires Inv(l, orig, s) && o in s.header && s.header[o] != orig[o]
    ensures s.header[o] % 2 == 0
  {
    assert Owned(s, o);
    OwnedIsAligned(l, orig, s, o);
  }

  lemma TakenIsSeen(l: Layout, orig: map<Obj, nat>, s: State, t: Tid, o: Obj)
    requires Inv(l, orig, s) && t in s.threads && o in s.header && s.header[o] != orig[o]
    ensures l.Valid() && RecsOk(l, orig, s, t) && Seen(l, t, s.threads[t], o, s.header[o])
  {
    LoadSeen(l, orig, s, t, o);
    assert RecsOk(l, orig, s, t);
  }

  lemma {:induction false} LockTaken(l: Layout, s: State, t: Tid, o: Obj, slot: Addr, k: nat)
    requires k >= 10
    requires t in s.threads && s.threads[t].pc == LockSaveObj(o, slot) && o in s.header && s.header[o] % 2 == 0
    ensures var s' := Solo(l, s, t, k);
            var th := s.threads[t];
            && s'.threads[t].pc.Idle? && s'.header == s.header
            && s'.threads[t].recs == if Distance(l, th.sp, s.header[o]) == 0
                                     then th.recs + [Rec(slot, o)] else th.recs
  {
    var s6 := LockMismatch(l, s, t, o, slot, k);
    LockEpilogue(l, s6, t, k - 6);
  }

  lemma OwnedIsAligned(l: Layout, orig: map<Obj, nat>, s: State, o: Obj)
    requires Inv(l, orig, s) && o in s.header && Owned(s, o)
    ensures s.header[o] % 8 == 0
  {
    var t, i :| t in s.threads && 0 <= i < |s.threads[t].recs| && IsOuter(s.threads[t].recs, i)
                && s.threads[t].recs[i] == Rec(s.header[o], o);
    var k := HolderSlot(l, orig, s, t, i);
  }

  /** The value that reaches the final branch is zero iff the lock is recursive. */
  lemma PageMask(l: Layout, orig: map<Obj, nat>, s: State, t: Tid, o: Obj, h: nat)
    requires l.Valid() && RecsOk(l, orig, s, t) && Seen(l, t, s.threads[t], o, h)
    ensures Distance(l, s.threads[t].sp, h) == 0 <==> Recursive(l, s.threads[t], o)
  {
    SubDetectsOwn(l, orig, s, t, o, h);
    PageTest((h - s.threads[t].sp) % WORD, l.logPage);
  }

  /** The page test and its two outcomes. */
  lemma {:induction false} LockEpilogue(l: Layout, s: State, t: Tid, k: nat)
    requires k >= 4
    requires t in s.threads && s.threads[t].pc.LockSub?
    ensures var s' := Solo(l, s, t, k);
            var th := s.threads[t];
            && s'.threads[t].pc.Idle? && s'.header == s.header
            && s'.threads[t].recs == if Distance(l, th.sp, th.pc.hdr) == 0
                                     then th.recs + [Rec(th.pc.slot, th.pc.o)] else th.recs
  {
    var s1 := Exec(l, s, t, true);
    var s2 := Exec(l, s1, t, true);
    var s3 := Exec(l, s2, t, true);
    SoloStep(l, s, t, k);
    SoloStep(l, s1, t, k - 1);
    SoloStep(l, s2, t, k - 2);
    SoloStep(l, s3, t, k - 3);
  }

  lemma {:induction false} UnlockInner(l: Layout, s: State, t: Tid, slot: Addr, k: nat)
    requires k >= 6
    requires t in s.threads && s.threads[t].pc == UnlockLoad(slot) && Read(s.disp, slot, 0) == 0
    ensures var s' := Solo(l, s, t, k);
            s'.threads[t].pc.Idle? && s'.threads[t].recs == DropLast(s.threads[t].recs) && s'.header == s.header
  {
    SoloStep(l, s, t, k);
    SoloStep(l, Exec(l, s, t, true), t, k - 1);
  }

  lemma {:induction false} UnlockOuter(l: Layout, s: State, t: Tid, slot: Addr, o: Obj, k: nat)
    requires k >= 6
    requires t in s.threads && s.threads[t].pc == UnlockLoad(slot) && Read(s.disp, slot, 0) != 0
    requires Read(s.slotObj, slot, 0) == o && o in s.header && s.header[o] == slot
    ensures var s' := Solo(l, s, t, k);
            && s'.threads[t].pc.Idle? && s'.threads[t].recs == DropLast(s.threads[t].recs)
            && s'.header == s.header[o := Read(s.disp, slot, 0)]
  {
    var hdr := Read(s.disp, slot, 0);
    var s1 := Exec(l, s, t, true);
    var s2 := Exec(l, s1, t, true);
    var s3 := Exec(l, s2, t, true);
    SoloStep(l, s, t, k);
    SoloStep(l, s1, t, k - 1);
    SoloStep(l, s2, t, k - 2);
    assert s3.threads[t] == s.threads[t].(pc := UnlockLdx(slot, hdr, o));
    SwapBack(l, s3, t, k - 3);
  }

  lemma {:induction false} SwapBack(l: Layout, s: State, t: Tid, k: nat)
    requires k >= 3
    requires t in s.threads && s.threads[t].pc.UnlockLdx?
    requires var pc := s.threads[t].pc; pc.o in s.header && s.header[pc.o] == pc.slot
    ensures var s' := Solo(l, s, t, k);
            && s'.threads[t].pc.Idle? && s'.threads[t].recs == DropLast(s.threads[t].recs)
            && s'.header == s.header[s.threads[t].pc.o := s.threads[t].pc.hdr]
  {
    var s1 := Exec(l, s, t, true);
    var s2 := Exec(l, s1, t, true);
    SoloStep(l, s, t, k);
    SoloStep(l, s1, t, k - 1);
    SoloStep(l, s2, t, k - 2);
  }

  /** An unlock that no other thread interrupts ends after at most six instructions with the
      innermost record gone; the header goes back to the original iff that record was the outermost. */
  lemma {:induction false} SoloUnlock(l: Layout, orig: map<Obj, nat>, s: State, t: Tid, k: nat)
    requires k >= 6
    requires Inv(l, orig, s) && Enabled(l, s, t, BeginUnlock)
    ensures var th := s.threads[t];
            var s' := Solo(l, Apply(l, s, t, BeginUnlock), t, k);
            var o := th.recs[|th.recs| - 1].obj;
            && s'.threads[t].pc.Idle? && s'.threads[t].recs == DropLast(th.recs) && o in orig
            && s'.header == if IsOuter(th.recs, |th.recs| - 1) then s.header[o := orig[o]] else s.header
  {
    var th := s.threads[t];
    var r := th.recs[|th.recs| - 1];
    assert RecsOk(l, orig, s, t);
    assert RecOk(l, orig, s, t, th, |th.recs| - 1);
    var b := Apply(l, s, t, BeginUnlock);
    if IsOuter(th.recs, |th.recs| - 1) {
      UnlockOuter(l, b, t, r.slot, r.obj, k);
    } else {
      UnlockInner(l, b, t, r.slot, k);
    }
  }
}
