/** Every step of every thread preserves the invariant. */
module ThinLockSteps {
  import opened Words
  import opened ThinLock
  import opened ThinLockSafety

  // ---------- frames ----------

  /** s' looks the same to thread u: same registers, same stack memory, and every monitor u still
      has covers an unchanged header. */
  ghost predicate SameFor(l: Layout, s: State, s': State, u: Tid) {
    && u in s.threads && u in s'.threads && s'.threads[u] == s.threads[u]
    && s'.header.Keys == s.header.Keys
    && (forall a {:trigger Read(s'.disp, a, 0)} :: l.InStack(u, a) ==> Read(s'.disp, a, 0) == Read(s.disp, a, 0))
    && (forall a {:trigger a in s'.slotObj} {:trigger Read(s'.slotObj, a, 0)} :: l.InStack(u, a) ==>
          (a in s'.slotObj <==> a in s.slotObj) && Read(s'.slotObj, a, 0) == Read(s.slotObj, a, 0))
    && (u in s'.monitors ==>
          (u in s.monitors && s'.monitors[u] == s.monitors[u]
           && (s.monitors[u] in s.header ==> s'.header[s.monitors[u]] == s.header[s.monitors[u]])))
  }

  lemma PcStable(l: Layout, orig: map<Obj, nat>, s: State, s': State, u: Tid)
    requires RecsOk(l, orig, s, u) && ThreadPcOk(l, s, u) && SameFor(l, s, s', u)
    ensures ThreadPcOk(l, s', u)
  {
    if Unlocking(s.threads[u].pc) {
      UnlockPcStable(l, orig, s, s', u);
    } else if Locking(s.threads[u].pc) {
      LockPcStable(l, s, s', u);
    }
  }

  lemma UnlockPcStable(l: Layout, orig: map<Obj, nat>, s: State, s': State, u: Tid)
    requires RecsOk(l, orig, s, u) && SameFor(l, s, s', u)
    requires Unlocking(s.threads[u].pc) && UnlockPcOk(s, u, s.threads[u])
    ensures UnlockPcOk(s', u, s.threads[u])
  {
    var th := s.threads[u];
    assert RecOk(l, orig, s, u, th, |th.recs| - 1);
  }

  lemma LockPcStable(l: Layout, s: State, s': State, u: Tid)
    requires SameFor(l, s, s', u) && Locking(s.threads[u].pc)
    requires LockPcOk(l, s, u, s.threads[u])
    ensures LockPcOk(l, s', u, s.threads[u])
  {
  }

  lemma RecsStable(l: Layout, orig: map<Obj, nat>, s: State, s': State, u: Tid)
    requires RecsOk(l, orig, s, u) && SameFor(l, s, s', u)
    requires forall o :: o in s.header && Holds(s.threads[u], o) ==> s'.header[o] == s.header[o]
    ensures RecsOk(l, orig, s', u)
  {
    var th := s.threads[u];
    forall i | 0 <= i < |th.recs|
      ensures RecOk(l, orig, s', u, th, i)
    {
      assert RecOk(l, orig, s, u, th, i);
      assert Holds(th, th.recs[i].obj);
    }
  }

  lemma OwnedStable(s: State, s': State, o: Obj)
    requires o in s.header && o in s'.header && s'.header[o] == s.header[o]
    requires forall u :: u in s.threads ==> u in s'.threads && s'.threads[u].recs == s.threads[u].recs
    ensures Owned(s, o) ==> Owned(s', o)
  {
    if Owned(s, o) {
      var u, i :| u in s.threads && 0 <= i < |s.threads[u].recs| && IsOuter(s.threads[u].recs, i)
                  && s.threads[u].recs[i] == Rec(s.header[o], o);
      assert s'.threads[u].recs[i] == Rec(s'.header[o], o);
    }
  }

  /** Memory that only thread t's fresh slot may have changed looks the same to every other thread. */
  ghost predicate OnlySlot(s: State, s': State, a: Addr) {
    && (forall b {:trigger Read(s'.disp, b, 0)} :: b != a ==> Read(s'.disp, b, 0) == Read(s.disp, b, 0))
    && (forall b {:trigger b in s'.slotObj} {:trigger Read(s'.slotObj, b, 0)} :: b != a ==>
          (b in s'.slotObj <==> b in s.slotObj) && Read(s'.slotObj, b, 0) == Read(s.slotObj, b, 0))
  }

  /** A step of t that leaves headers, records and sp alone and writes at most its fresh slot. */
  ghost predicate Local(l: Layout, s: State, s': State, t: Tid, a: Addr) {
    && t in s.threads && s'.header == s.header && s'.threads.Keys == s.threads.Keys
    && (FreshSlot(l, t, s.threads[t], a) || (s'.disp == s.disp && s'.slotObj == s.slotObj))
    && OnlySlot(s, s', a)
    && s'.threads[t].recs == s.threads[t].recs && s'.threads[t].sp == s.threads[t].sp
    && (forall u :: u in s.threads && u != t ==> s'.threads[u] == s.threads[u])
    && (forall u :: u in s'.monitors && u != t ==> u in s.monitors && s'.monitors[u] == s.monitors[u])
  }

  /** The instructions that only compute, load, or write the record of a lock being taken. */
  lemma ExecLocal(l: Layout, s: State, t: Tid, stxOk: bool)
    requires ThreadPcOk(l, s, t) && !s.threads[t].pc.Idle?
    requires var pc := s.threads[t].pc;
             && (pc.LockTest? ==> pc.hdr != 0) && (pc.UnlockTest? ==> pc.hdr != 0)
             && (pc.LockStx? || pc.UnlockStx? ==> !StoreExclusiveOk(s, t, pc.o, stxOk))
    ensures Local(l, s, Exec(l, s, t, stxOk), t, s.threads[t].pc.slot)
  {
    var pc := s.threads[t].pc;
    if pc.LockSaveObj? || pc.LockSaveHdr? || pc.LockSaveRes? {
      ExecWrites(l, s, t, stxOk);
    } else if Unlocking(pc) {
      ExecUnlocks(l, s, t, stxOk);
    } else {
      ExecReads(l, s, t, stxOk);
    }
  }

  lemma ExecWrites(l: Layout, s: State, t: Tid, stxOk: bool)
    requires ThreadPcOk(l, s, t)
    requires var pc := s.threads[t].pc; pc.LockSaveObj? || pc.LockSaveHdr? || pc.LockSaveRes?
    ensures Local(l, s, Exec(l, s, t, stxOk), t, s.threads[t].pc.slot)
  {
  }

  /** Neither headers, nor records, nor memory change. */
  ghost predicate Quiet(s: State, s': State, t: Tid) {
    && t in s.threads && t in s'.threads && s' == s.(threads := s'.threads, monitors := s'.monitors)
    && s'.threads == s.threads[t := s.threads[t].(pc := s'.threads[t].pc)]
    && (forall u :: u in s'.monitors && u != t ==> u in s.monitors && s'.monitors[u] == s.monitors[u])
  }

  lemma ExecUnlocks(l: Layout, s: State, t: Tid, stxOk: bool)
    requires t in s.threads && Unlocking(s.threads[t].pc)
    requires var pc := s.threads[t].pc;
             (pc.UnlockTest? ==> pc.hdr != 0) && (pc.UnlockStx? ==> !StoreExclusiveOk(s, t, pc.o, stxOk))
    ensures Quiet(s, Exec(l, s, t, stxOk), t)
  {
  }

  lemma ExecReads(l: Layout, s: State, t: Tid, stxOk: bool)
    requires t in s.threads && Locking(s.threads[t].pc)
    requires var pc := s.threads[t].pc;
             && !pc.LockSaveObj? && !pc.LockSaveHdr? && !pc.LockSaveRes? && (pc.LockTest? ==> pc.hdr != 0)
             && (pc.LockStx? ==> !StoreExclusiveOk(s, t, pc.o, stxOk))
    ensures Quiet(s, Exec(l, s, t, stxOk), t)
  {
  }

  lemma LocalStep(l: Layout, orig: map<Obj, nat>, s: State, s': State, t: Tid, a: Addr)
    requires Inv(l, orig, s) && Local(l, s, s', t, a) && ThreadPcOk(l, s', t)
    ensures Inv(l, orig, s')
  {
    forall u | u in s'.threads
      ensures RecsOk(l, orig, s', u) && ThreadPcOk(l, s', u)
    {
      assert RecsOk(l, orig, s, u) && ThreadPcOk(l, s, u);
      if u != t {
        assert l.Apart(t, u);
        assert SameFor(l, s, s', u);
        PcStable(l, orig, s, s', u);
        RecsStable(l, orig, s, s', u);
      } else {
        OwnRecs(l, orig, s, s', t, a);
      }
    }
    forall o | o in s'.header
      ensures s'.header[o] == orig[o] || Owned(s', o)
    {
      OwnedStable(s, s', o);
    }
  }

  lemma OwnRecs(l: Layout, orig: map<Obj, nat>, s: State, s': State, t: Tid, a: Addr)
    requires RecsOk(l, orig, s, t)
    requires FreshSlot(l, t, s.threads[t], a) || (s'.disp == s.disp && s'.slotObj == s.slotObj)
    requires OnlySlot(s, s', a)
    requires s'.header == s.header && t in s'.threads
    requires s'.threads[t].recs == s.threads[t].recs && s'.threads[t].sp == s.threads[t].sp
    ensures RecsOk(l, orig, s', t)
  {
    var th := s'.threads[t];
    forall i | 0 <= i < |th.recs|
      ensures RecOk(l, orig, s', t, th, i)
    {
      assert RecOk(l, orig, s, t, s.threads[t], i);
    }
  }

  // ---------- what t learns from its own instruction ----------

  /** A header load sees t's own outermost slot, an unlocked word, or another thread's slot. */
  lemma LoadSeen(l: Layout, orig: map<Obj, nat>, s: State, t: Tid, o: Obj)
    requires Inv(l, orig, s) && t in s.threads && o in s.header
    ensures Seen(l, t, s.threads[t], o, s.header[o])
  {
    var th := s.threads[t];
    assert RecsOk(l, orig, s, t);
    forall i | 0 <= i < |th.recs| && th.recs[i].obj == o && IsOuter(th.recs, i)
      ensures s.header[o] == th.recs[i].slot
    {
      assert RecOk(l, orig, s, t, th, i);
    }
    if s.header[o] != orig[o] {
      assert Owned(s, o);
      var u, i :| u in s.threads && 0 <= i < |s.threads[u].recs| && IsOuter(s.threads[u].recs, i)
                  && s.threads[u].recs[i] == Rec(s.header[o], o);
      var k := HolderSlot(l, orig, s, u, i);
      assert l.StackOk(u);
      assert u == t ==> Holds(th, o);
    }
  }

  lemma SubWord(h: nat, sp: nat)
    requires h < WORD && sp <= WORD
    ensures (h - sp) % WORD == if h >= sp then h - sp else h - sp + WORD
  {
  }

  /** No slot of another thread is within a page above sp, even with 64-bit wrap-around. */
  lemma ForeignSlotFar(l: Layout, t: Tid, u: Tid, sp: Addr, h: Addr)
    requires l.Valid() && l.ValidSp(t, sp) && l.InStack(u, h) && t != u
    ensures (h - sp) % WORD >= l.Page()
  {
    assert l.Apart(t, u) && l.StackOk(t) && l.StackOk(u);
    SubWord(h, sp);
  }

  lemma NotHeldFar(l: Layout, t: Tid, th: Thread, o: Obj, h: nat)
    requires l.Valid() && l.ValidSp(t, th.sp) && Seen(l, t, th, o, h) && !Holds(th, o)
    ensures var d := (h - th.sp) % WORD; d % 8 != 0 || d >= l.Page()
  {
    if h % 8 == 1 {
      assert l.StackOk(t);
      SubWord(h, th.sp);
    } else {
      var u :| u != t && l.InStack(u, h);
      ForeignSlotFar(l, t, u, th.sp, h);
    }
  }

  lemma RecursiveAt(l: Layout, th: Thread, o: Obj, k: nat)
    requires k < |th.recs| && th.recs[k].obj == o && IsOuter(th.recs, k)
    ensures Recursive(l, th, o) <==> th.recs[k].slot < th.sp + l.Page()
  {
    if Recursive(l, th, o) {
      var j :| 0 <= j < |th.recs| && th.recs[j].obj == o && IsOuter(th.recs, j) && th.recs[j].slot < th.sp + l.Page();
      OuterUnique(th.recs, j, k);
    }
  }

  lemma HeldNear(l: Layout, orig: map<Obj, nat>, s: State, t: Tid, k: nat)
    requires l.Valid() && RecsOk(l, orig, s, t) && k < |s.threads[t].recs|
    ensures var th := s.threads[t]; var h := th.recs[k].slot;
            h < WORD && th.sp <= h && (h - th.sp) % WORD == h - th.sp && (h - th.sp) % 8 == 0
  {
    assert RecOk(l, orig, s, t, s.threads[t], k);
    assert l.StackOk(t);
    SubWord(s.threads[t].recs[k].slot, s.threads[t].sp);
  }

  lemma HeldDetected(l: Layout, orig: map<Obj, nat>, s: State, t: Tid, o: Obj, i: nat, h: nat)
    requires l.Valid() && RecsOk(l, orig, s, t) && i < |s.threads[t].recs| && s.threads[t].recs[i].obj == o
    requires Seen(l, t, s.threads[t], o, h)
    ensures var d := (h - s.threads[t].sp) % WORD; d % 8 == 0 && d < l.Page() <==> Recursive(l, s.threads[t], o)
  {
    var th := s.threads[t];
    var k := OuterExists(th.recs, i);
    HeldNear(l, orig, s, t, k);
    RecursiveAt(l, th, o, k);
  }

  /** The page test on (hdr - sp) recognises exactly the recursive case. */
  lemma SubDetectsOwn(l: Layout, orig: map<Obj, nat>, s: State, t: Tid, o: Obj, h: nat)
    requires l.Valid() && RecsOk(l, orig, s, t) && Seen(l, t, s.threads[t], o, h)
    ensures var d := (h - s.threads[t].sp) % WORD; d % 8 == 0 && d < l.Page() <==> Recursive(l, s.threads[t], o)
  {
    var th := s.threads[t];
    if i :| 0 <= i < |th.recs| && th.recs[i].obj == o {
      HeldDetected(l, orig, s, t, o, i, h);
    } else {
      NotHeldFar(l, t, th, o, h);
    }
  }

  // ---------- the steps ----------

  lemma LockFirstHalfPc(l: Layout, s: State, t: Tid, stxOk: bool)
    requires ThreadPcOk(l, s, t)
    requires var pc := s.threads[t].pc; pc.LockSaveObj? || pc.LockLoad? || pc.LockMark? || pc.LockSaveHdr? || pc.LockLdx?
    requires var pc := s.threads[t].pc; pc.o in s.header && Seen(l, t, s.threads[t], pc.o, s.header[pc.o])
    ensures ThreadPcOk(l, Exec(l, s, t, stxOk), t)
  {
    if s.threads[t].pc.LockLdx? {
      LockLdxPc(l, s, t, stxOk);
    } else {
      LockSavePc(l, s, t, stxOk);
    }
  }

  lemma LockLdxPc(l: Layout, s: State, t: Tid, stxOk: bool)
    requires ThreadPcOk(l, s, t) && s.threads[t].pc.LockLdx?
    requires var pc := s.threads[t].pc; pc.o in s.header && Seen(l, t, s.threads[t], pc.o, s.header[pc.o])
    ensures ThreadPcOk(l, Exec(l, s, t, stxOk), t)
  {
  }

  lemma LockSavePc(l: Layout, s: State, t: Tid, stxOk: bool)
    requires ThreadPcOk(l, s, t)
    requires var pc := s.threads[t].pc; pc.LockSaveObj? || pc.LockLoad? || pc.LockMark? || pc.LockSaveHdr?
    requires var pc := s.threads[t].pc; pc.o in s.header && s.header[pc.o] < WORD
    ensures ThreadPcOk(l, Exec(l, s, t, stxOk), t)
  {
    if s.threads[t].pc.LockSaveHdr? {
      LockSaveHdrPc(l, s, t, stxOk);
    } else if s.threads[t].pc.LockSaveObj? {
      LockSaveObjPc(l, s, t, stxOk);
    }
  }

  lemma LockSaveHdrPc(l: Layout, s: State, t: Tid, stxOk: bool)
    requires ThreadPcOk(l, s, t) && s.threads[t].pc.LockSaveHdr?
    ensures ThreadPcOk(l, Exec(l, s, t, stxOk), t)
  {
  }

  lemma LockSaveObjPc(l: Layout, s: State, t: Tid, stxOk: bool)
    requires ThreadPcOk(l, s, t) && s.threads[t].pc.LockSaveObj?
    ensures ThreadPcOk(l, Exec(l, s, t, stxOk), t)
  {
  }

  lemma LockFirstHalf(l: Layout, orig: map<Obj, nat>, s: State, t: Tid, stxOk: bool)
    requires Inv(l, orig, s) && t in s.threads
    requires var pc := s.threads[t].pc; pc.LockSaveObj? || pc.LockLoad? || pc.LockMark? || pc.LockSaveHdr? || pc.LockLdx?
    ensures Inv(l, orig, Exec(l, s, t, stxOk))
  {
    var pc := s.threads[t].pc;
    assert ThreadPcOk(l, s, t);
    LoadSeen(l, orig, s, t, pc.o);
    LockFirstHalfPc(l, s, t, stxOk);
    ExecLocal(l, s, t, stxOk);
    LocalStep(l, orig, s, Exec(l, s, t, stxOk), t, pc.slot);
  }

  lemma LockSecondHalfPc(l: Layout, s: State, t: Tid, stxOk: bool)
    requires l.Valid() && ThreadPcOk(l, s, t)
    requires var pc := s.threads[t].pc; pc.LockCmp? || pc.LockMask? || pc.LockSaveRes? || (pc.LockTest? && pc.hdr != 0)
    ensures ThreadPcOk(l, Exec(l, s, t, stxOk), t)
  {
    if s.threads[t].pc.LockMask? {
      LockMaskPc(l, s, t, stxOk);
    } else if s.threads[t].pc.LockCmp? {
      LockCmpPc(l, s, t, stxOk);
    } else {
      LockTestPc(l, s, t, stxOk);
    }
  }

  lemma LockCmpPc(l: Layout, s: State, t: Tid, stxOk: bool)
    requires ThreadPcOk(l, s, t) && s.threads[t].pc.LockCmp?
    ensures ThreadPcOk(l, Exec(l, s, t, stxOk), t)
  {
  }

  lemma LockTestPc(l: Layout, s: State, t: Tid, stxOk: bool)
    requires ThreadPcOk(l, s, t)
    requires var pc := s.threads[t].pc; pc.LockSaveRes? || (pc.LockTest? && pc.hdr != 0)
    ensures ThreadPcOk(l, Exec(l, s, t, stxOk), t)
  {
  }

  lemma LockMaskPc(l: Layout, s: State, t: Tid, stxOk: bool)
    requires l.Valid() && ThreadPcOk(l, s, t) && s.threads[t].pc.LockMask?
    ensures ThreadPcOk(l, Exec(l, s, t, stxOk), t)
  {
    PageTest(s.threads[t].pc.hdr, l.logPage);
  }

  lemma LockSecondHalf(l: Layout, orig: map<Obj, nat>, s: State, t: Tid, stxOk: bool)
    requires Inv(l, orig, s) && t in s.threads
    requires var pc := s.threads[t].pc; pc.LockCmp? || pc.LockMask? || pc.LockSaveRes? || (pc.LockTest? && pc.hdr != 0)
    ensures Inv(l, orig, Exec(l, s, t, stxOk))
  {
    assert ThreadPcOk(l, s, t);
    LockSecondHalfPc(l, s, t, stxOk);
    ExecLocal(l, s, t, stxOk);
    LocalStep(l, orig, s, Exec(l, s, t, stxOk), t, s.threads[t].pc.slot);
  }

  lemma LockSubPc(l: Layout, s: State, t: Tid, stxOk: bool)
    requires ThreadPcOk(l, s, t) && s.threads[t].pc.LockSub?
    requires var th := s.threads[t];
             var d := (th.pc.hdr - th.sp) % WORD; d % 8 == 0 && d < l.Page() <==> Recursive(l, th, th.pc.o)
    ensures ThreadPcOk(l, Exec(l, s, t, stxOk), t)
  {
    var th := s.threads[t];
    var th' := Exec(l, s, t, stxOk).threads[t];
    assert Recursive(l, th', th.pc.o) == Recursive(l, th, th.pc.o);
  }

  lemma LockSubStep(l: Layout, orig: map<Obj, nat>, s: State, t: Tid, stxOk: bool)
    requires Inv(l, orig, s) && t in s.threads && s.threads[t].pc.LockSub?
    ensures Inv(l, orig, Exec(l, s, t, stxOk))
  {
    var pc := s.threads[t].pc;
    assert ThreadPcOk(l, s, t) && RecsOk(l, orig, s, t);
    SubDetectsOwn(l, orig, s, t, pc.o, pc.hdr);
    LockSubPc(l, s, t, stxOk);
    ExecLocal(l, s, t, stxOk);
    LocalStep(l, orig, s, Exec(l, s, t, stxOk), t, pc.slot);
  }

  lemma UnlockLocalPc(l: Layout, orig: map<Obj, nat>, s: State, t: Tid, stxOk: bool)
    requires ThreadPcOk(l, s, t) && RecsOk(l, orig, s, t)
    requires var pc := s.threads[t].pc;
             pc.UnlockLoad? || (pc.UnlockTest? && pc.hdr != 0) || pc.UnlockObj? || pc.UnlockLdx? || pc.UnlockCmp?
    ensures ThreadPcOk(l, Exec(l, s, t, stxOk), t)
  {
    if s.threads[t].pc.UnlockLdx? {
      UnlockLdxPc(l, orig, s, t, stxOk);
    } else if s.threads[t].pc.UnlockCmp? {
      UnlockCmpPc(l, s, t, stxOk);
    } else {
      UnlockLoadPc(l, orig, s, t, stxOk);
    }
  }

  /** The load sees the slot, because the thread still holds the object. */
  lemma UnlockLdxPc(l: Layout, orig: map<Obj, nat>, s: State, t: Tid, stxOk: bool)
    requires ThreadPcOk(l, s, t) && RecsOk(l, orig, s, t) && s.threads[t].pc.UnlockLdx?
    ensures ThreadPcOk(l, Exec(l, s, t, stxOk), t)
  {
    assert RecOk(l, orig, s, t, s.threads[t], |s.threads[t].recs| - 1);
  }

  lemma UnlockCmpPc(l: Layout, s: State, t: Tid, stxOk: bool)
    requires ThreadPcOk(l, s, t) && s.threads[t].pc.UnlockCmp?
    ensures ThreadPcOk(l, Exec(l, s, t, stxOk), t)
  {
  }

  lemma UnlockLoadPc(l: Layout, orig: map<Obj, nat>, s: State, t: Tid, stxOk: bool)
    requires ThreadPcOk(l, s, t) && RecsOk(l, orig, s, t)
    requires var pc := s.threads[t].pc; pc.UnlockLoad? || (pc.UnlockTest? && pc.hdr != 0) || pc.UnlockObj?
    ensures ThreadPcOk(l, Exec(l, s, t, stxOk), t)
  {
    assert RecOk(l, orig, s, t, s.threads[t], |s.threads[t].recs| - 1);
  }

  lemma UnlockLocal(l: Layout, orig: map<Obj, nat>, s: State, t: Tid, stxOk: bool)
    requires Inv(l, orig, s) && t in s.threads
    requires var pc := s.threads[t].pc;
             pc.UnlockLoad? || (pc.UnlockTest? && pc.hdr != 0) || pc.UnlockObj? || pc.UnlockLdx? || pc.UnlockCmp?
    ensures Inv(l, orig, Exec(l, s, t, stxOk))
  {
    assert ThreadPcOk(l, s, t);
    assert RecsOk(l, orig, s, t);
    UnlockLocalPc(l, orig, s, t, stxOk);
    ExecLocal(l, s, t, stxOk);
    LocalStep(l, orig, s, Exec(l, s, t, stxOk), t, s.threads[t].pc.slot);
  }

  lemma StxFails(l: Layout, orig: map<Obj, nat>, s: State, t: Tid, stxOk: bool)
    requires Inv(l, orig, s) && t in s.threads
    requires var pc := s.threads[t].pc; (pc.LockStx? || pc.UnlockStx?) && !StoreExclusiveOk(s, t, pc.o, stxOk)
    ensures Inv(l, orig, Exec(l, s, t, stxOk))
  {
    assert ThreadPcOk(l, s, t);
    StxFailsPc(l, s, t, stxOk);
    ExecLocal(l, s, t, stxOk);
    LocalStep(l, orig, s, Exec(l, s, t, stxOk), t, s.threads[t].pc.slot);
  }

  lemma StxFailsPc(l: Layout, s: State, t: Tid, stxOk: bool)
    requires ThreadPcOk(l, s, t)
    requires var pc := s.threads[t].pc; (pc.LockStx? || pc.UnlockStx?) && !StoreExclusiveOk(s, t, pc.o, stxOk)
    ensures ThreadPcOk(l, Exec(l, s, t, stxOk), t)
  {
  }

  lemma BeginStep(l: Layout, orig: map<Obj, nat>, s: State, t: Tid, a: Action)
    requires Inv(l, orig, s) && Enabled(l, s, t, a) && (a.BeginLock? || a.BeginUnlock?)
    ensures Inv(l, orig, Apply(l, s, t, a))
  {
    var s' := Apply(l, s, t, a);
    assert ThreadPcOk(l, s', t);
    LocalStep(l, orig, s, s', t, 0);
  }

  lemma MoveSpStep(l: Layout, orig: map<Obj, nat>, s: State, t: Tid, a: Action)
    requires Inv(l, orig, s) && Enabled(l, s, t, a) && a.MoveSp?
    ensures Inv(l, orig, Apply(l, s, t, a))
  {
    var s' := Apply(l, s, t, a);
    forall u | u in s'.threads
      ensures RecsOk(l, orig, s', u) && ThreadPcOk(l, s', u)
    {
      assert RecsOk(l, orig, s, u) && ThreadPcOk(l, s, u);
      if u != t {
        PcStable(l, orig, s, s', u);
        RecsStable(l, orig, s, s', u);
      } else {
        forall i | 0 <= i < |s'.threads[t].recs|
          ensures RecOk(l, orig, s', t, s'.threads[t], i)
        {
          assert RecOk(l, orig, s, t, s.threads[t], i);
        }
      }
    }
    forall o | o in s'.header
      ensures s'.header[o] == orig[o] || Owned(s', o)
    {
      OwnedStable(s, s', o);
    }
  }

  // ---------- acquiring and releasing ----------

  /** Appending a record keeps the old records' status; the new one is outermost iff its object is new. */
  lemma PushOuter(recs: seq<Rec>, r: Rec)
    ensures forall i :: 0 <= i < |recs| ==> (IsOuter(recs + [r], i) <==> IsOuter(recs, i))
    ensures IsOuter(recs + [r], |recs|) <==> forall i :: 0 <= i < |recs| ==> recs[i].obj != r.obj
  {
    var all := recs + [r];
    assert forall i :: 0 <= i < |recs| ==> all[i] == recs[i];
  }

  /** The store-exclusive that locks an unlocked object. */
  lemma AcquireStep(l: Layout, orig: map<Obj, nat>, s: State, t: Tid, stxOk: bool)
    requires Inv(l, orig, s) && t in s.threads && s.threads[t].pc.LockStx?
    requires StoreExclusiveOk(s, t, s.threads[t].pc.o, stxOk)
    ensures Inv(l, orig, Exec(l, s, t, stxOk))
  {
    var th := s.threads[t];
    var o, slot := th.pc.o, th.pc.slot;
    var s' := Exec(l, s, t, stxOk);
    assert ThreadPcOk(l, s, t) && RecsOk(l, orig, s, t);
    UnlockedHeader(l, orig, s, o);
    AcquireRecs(l, orig, s, s', t, Rec(slot, o));
    forall u | u in s'.threads
      ensures RecsOk(l, orig, s', u) && ThreadPcOk(l, s', u)
    {
      if u != t {
        assert RecsOk(l, orig, s, u) && ThreadPcOk(l, s, u);
        assert SameFor(l, s, s', u);
        PcStable(l, orig, s, s', u);
        RecsStable(l, orig, s, s', u);
      }
    }
    forall p | p in s'.header
      ensures s'.header[p] == orig[p] || Owned(s', p)
    {
      if p == o {
        PushOuter(th.recs, Rec(slot, o));
        assert s'.threads[t].recs[|th.recs|] == Rec(s'.header[o], o);
      } else {
        OwnedAfterPush(s, s', t, Rec(slot, o), p);
      }
    }
  }

  lemma OwnedAfterPush(s: State, s': State, t: Tid, r: Rec, p: Obj)
    requires p in s.header && p in s'.header && s'.header[p] == s.header[p]
    requires t in s.threads && t in s'.threads && s'.threads[t].recs == s.threads[t].recs + [r]
    requires forall u :: u in s.threads && u != t ==> u in s'.threads && s'.threads[u].recs == s.threads[u].recs
    ensures Owned(s, p) ==> Owned(s', p)
  {
    if Owned(s, p) {
      var u, i :| u in s.threads && 0 <= i < |s.threads[u].recs| && IsOuter(s.threads[u].recs, i)
                  && s.threads[u].recs[i] == Rec(s.header[p], p);
      PushOuter(s.threads[t].recs, r);
      assert IsOuter(s'.threads[u].recs, i) && s'.threads[u].recs[i] == Rec(s'.header[p], p);
    }
  }

  /** t's records after pushing r, either as the new owner of r.obj or recursively. */
  lemma AcquireRecs(l: Layout, orig: map<Obj, nat>, s: State, s': State, t: Tid, r: Rec)
    requires RecsOk(l, orig, s, t) && FreshSlot(l, t, s.threads[t], r.slot) && r.obj in orig
    requires s'.header.Keys == s.header.Keys && r.obj in s.header
    requires forall o :: o in s.header && o != r.obj ==> s'.header[o] == s.header[o]
    requires s'.disp == s.disp && s'.slotObj == s.slotObj && Read(s.slotObj, r.slot, 0) == r.obj
    requires t in s'.threads && s'.threads[t].recs == s.threads[t].recs + [r] && s'.threads[t].sp == s.threads[t].sp
    requires if Holds(s.threads[t], r.obj) then s'.header == s.header && Read(s.disp, r.slot, 0) == 0
             else Read(s.disp, r.slot, 0) == orig[r.obj] && s'.header[r.obj] == r.slot
    ensures RecsOk(l, orig, s', t)
  {
    var th, th' := s.threads[t], s'.threads[t];
    PushOuter(th.recs, r);
    forall i | 0 <= i < |th'.recs|
      ensures RecOk(l, orig, s', t, th', i)
    {
      if i < |th.recs| {
        assert RecOk(l, orig, s, t, th, i);
        assert th'.recs[i] == th.recs[i];
        assert th.recs[i].obj == r.obj ==> Holds(th, r.obj);
      }
    }
  }

  /** The recursive case: the page test gave zero. */
  lemma RecurseStep(l: Layout, orig: map<Obj, nat>, s: State, t: Tid, stxOk: bool)
    requires Inv(l, orig, s) && t in s.threads && s.threads[t].pc.LockTest? && s.threads[t].pc.hdr == 0
    ensures Inv(l, orig, Exec(l, s, t, stxOk))
  {
    var th := s.threads[t];
    var o, slot := th.pc.o, th.pc.slot;
    var s' := Exec(l, s, t, stxOk);
    assert ThreadPcOk(l, s, t) && RecsOk(l, orig, s, t);
    assert Holds(th, o);
    AcquireRecs(l, orig, s, s', t, Rec(slot, o));
    forall u | u in s'.threads
      ensures RecsOk(l, orig, s', u) && ThreadPcOk(l, s', u)
    {
      if u != t {
        assert RecsOk(l, orig, s, u) && ThreadPcOk(l, s, u);
        assert SameFor(l, s, s', u);
        PcStable(l, orig, s, s', u);
        RecsStable(l, orig, s, s', u);
      }
    }
    forall p | p in s'.header
      ensures s'.header[p] == orig[p] || Owned(s', p)
    {
      OwnedAfterPush(s, s', t, Rec(slot, o), p);
    }
  }

  /** t's records after its innermost one is gone. */
  lemma ReleaseRecs(l: Layout, orig: map<Obj, nat>, s: State, s': State, t: Tid)
    requires RecsOk(l, orig, s, t) && |s.threads[t].recs| > 0
    requires s'.header.Keys == s.header.Keys && s'.disp == s.disp && s'.slotObj == s.slotObj
    requires var o := s.threads[t].recs[|s.threads[t].recs| - 1].obj;
             && (forall p :: p in s.header && p != o ==> s'.header[p] == s.header[p])
             && (s'.header == s.header || IsOuter(s.threads[t].recs, |s.threads[t].recs| - 1))
    requires t in s'.threads && s'.threads[t].recs == DropLast(s.threads[t].recs) && s'.threads[t].sp == s.threads[t].sp
    ensures RecsOk(l, orig, s', t)
  {
    var th, th' := s.threads[t], s'.threads[t];
    PopOuter(th.recs);
    forall i | 0 <= i < |th'.recs|
      ensures RecOk(l, orig, s', t, th', i)
    {
      assert RecOk(l, orig, s, t, th, i);
    }
  }

  lemma PopOuter(recs: seq<Rec>)
    ensures forall i :: 0 <= i < |DropLast(recs)| ==> DropLast(recs)[i] == recs[i]
    ensures forall i :: 0 <= i < |DropLast(recs)| ==> (IsOuter(DropLast(recs), i) <==> IsOuter(recs, i))
  {
  }

  lemma OwnedAfterPop(s: State, s': State, t: Tid, p: Obj)
    requires p in s.header && p in s'.header && s'.header[p] == s.header[p]
    requires t in s.threads && |s.threads[t].recs| > 0
    requires s.threads[t].recs[|s.threads[t].recs| - 1].obj != p || !IsOuter(s.threads[t].recs, |s.threads[t].recs| - 1)
    requires t in s'.threads && s'.threads[t].recs == DropLast(s.threads[t].recs)
    requires forall u :: u in s.threads && u != t ==> u in s'.threads && s'.threads[u].recs == s.threads[u].recs
    ensures Owned(s, p) ==> Owned(s', p)
  {
    if Owned(s, p) {
      var u, i :| u in s.threads && 0 <= i < |s.threads[u].recs| && IsOuter(s.threads[u].recs, i)
                  && s.threads[u].recs[i] == Rec(s.header[p], p);
      PopOuter(s.threads[t].recs);
      assert IsOuter(s'.threads[u].recs, i) && s'.threads[u].recs[i] == Rec(s'.header[p], p);
    }
  }

  /** Leaving a recursive lock: the slot holds zero, so the record is not the outermost one. */
  lemma UnrecurseStep(l: Layout, orig: map<Obj, nat>, s: State, t: Tid, stxOk: bool)
    requires Inv(l, orig, s) && t in s.threads && s.threads[t].pc.UnlockTest? && s.threads[t].pc.hdr == 0
    ensures Inv(l, orig, Exec(l, s, t, stxOk))
  {
    var th := s.threads[t];
    var s' := Exec(l, s, t, stxOk);
    assert ThreadPcOk(l, s, t) && RecsOk(l, orig, s, t);
    assert RecOk(l, orig, s, t, th, |th.recs| - 1);
    assert !IsOuter(th.recs, |th.recs| - 1);
    ReleaseRecs(l, orig, s, s', t);
    forall u | u in s'.threads
      ensures RecsOk(l, orig, s', u) && ThreadPcOk(l, s', u)
    {
      if u != t {
        assert RecsOk(l, orig, s, u) && ThreadPcOk(l, s, u);
        assert SameFor(l, s, s', u);
        PcStable(l, orig, s, s', u);
        RecsStable(l, orig, s, s', u);
      }
    }
    forall p | p in s'.header
      ensures s'.header[p] == orig[p] || Owned(s', p)
    {
      OwnedAfterPop(s, s', t, p);
    }
  }

  /** The store-exclusive that puts the displaced header back. */
  lemma ReleaseStep(l: Layout, orig: map<Obj, nat>, s: State, t: Tid, stxOk: bool)
    requires Inv(l, orig, s) && t in s.threads && s.threads[t].pc.UnlockStx?
    requires StoreExclusiveOk(s, t, s.threads[t].pc.o, stxOk)
    ensures Inv(l, orig, Exec(l, s, t, stxOk))
  {
    var th := s.threads[t];
    var o := th.pc.o;
    var s' := Exec(l, s, t, stxOk);
    assert ThreadPcOk(l, s, t) && RecsOk(l, orig, s, t);
    assert RecOk(l, orig, s, t, th, |th.recs| - 1);
    assert IsOuter(th.recs, |th.recs| - 1);
    assert Holds(th, o);
    ReleaseRecs(l, orig, s, s', t);
    forall u | u in s'.threads
      ensures RecsOk(l, orig, s', u) && ThreadPcOk(l, s', u)
    {
      if u != t {
        assert RecsOk(l, orig, s, u) && ThreadPcOk(l, s, u);
        if Holds(s.threads[u], o) {
          Exclusive(l, orig, s, t, u, o);
        }
        assert SameFor(l, s, s', u);
        PcStable(l, orig, s, s', u);
        RecsStable(l, orig, s, s', u);
      }
    }
    forall p | p in s'.header
      ensures s'.header[p] == orig[p] || Owned(s', p)
    {
      if p != o {
        OwnedAfterPop(s, s', t, p);
      }
    }
  }

  lemma StepKeepsInv(l: Layout, orig: map<Obj, nat>, s: State, t: Tid, a: Action)
    requires Inv(l, orig, s) && Enabled(l, s, t, a)
    ensures Inv(l, orig, Apply(l, s, t, a))
  {
    match a
    case BeginLock(_, _) => BeginStep(l, orig, s, t, a);
    case BeginUnlock => BeginStep(l, orig, s, t, a);
    case MoveSp(_) => MoveSpStep(l, orig, s, t, a);
    case Run(ok) =>
      var pc := s.threads[t].pc;
      if pc.LockSaveObj? || pc.LockLoad? || pc.LockMark? || pc.LockSaveHdr? || pc.LockLdx? {
        LockFirstHalf(l, orig, s, t, ok);
      } else if pc.LockSub? {
        LockSubStep(l, orig, s, t, ok);
      } else if pc.LockCmp? || pc.LockMask? || pc.LockSaveRes? || (pc.LockTest? && pc.hdr != 0) {
        LockSecondHalf(l, orig, s, t, ok);
      } else if pc.LockTest? {
        RecurseStep(l, orig, s, t, ok);
      } else if pc.UnlockTest? && pc.hdr == 0 {
        UnrecurseStep(l, orig, s, t, ok);
      } else if pc.LockStx? || pc.UnlockStx? {
        if !StoreExclusiveOk(s, t, pc.o, ok) {
          StxFails(l, orig, s, t, ok);
        } else if pc.LockStx? {
          AcquireStep(l, orig, s, t, ok);
        } else {
          ReleaseStep(l, orig, s, t, ok);
        }
      } else {
        UnlockLocal(l, orig, s, t, ok);
      }
  }

  lemma {:induction false} RunKeepsInv(l: Layout, orig: map<Obj, nat>, run: seq<State>, n: nat)
    requires IsRun(l, orig, run) && n < |run|
    ensures Inv(l, orig, run[n])
  {
    if n > 0 {
      RunKeepsInv(l, orig, run, n - 1);
      assert Next(l, run[n - 1], run[n - 1 + 1]);
      var t, a :| Enabled(l, run[n - 1], t, a) && run[n] == Apply(l, run[n - 1], t, a);
      StepKeepsInv(l, orig, run[n - 1], t, a);
    }
  }
}
