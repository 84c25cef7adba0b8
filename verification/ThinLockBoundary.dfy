/** A run in which a thread's own lock record lies exactly one page above its stack pointer. */
module ThinLockBoundary {
  import opened ThinLock
  import opened ThinLockTheorems

  /** Pages of 4 KB and one thread whose stack ends at 0x10000. */
  function OneStack(): (l: Layout)
    ensures l.Page() == 0x1000 && l.Valid()
  {
    Layout(12, map[0 := Stack(0x1000, 0x1_0000)])
  }

  const SLOT: Addr := 0x8000

  /** The object 0 is unlocked; the thread has its stack pointer at the slot and holds nothing. */
  function Locking(disp: map<Addr, nat>, slots: map<Addr, Obj>, pc: Pc, monitors: map<Tid, Obj>): State {
    State(map[0 := 1], disp, slots, map[0 := Thread(SLOT, [], pc)], monitors)
  }

  function Locked(sp: Addr): State {
    State(map[0 := SLOT], map[SLOT := 1], map[SLOT := 0], map[0 := Thread(sp, [Rec(SLOT, 0)], Idle)], map[])
  }

  /** The states of the lock attempt, in order. */
  function Trace(): seq<State> {
    [Locking(map[], map[], Idle, map[]),
     Locking(map[], map[], LockSaveObj(0, SLOT), map[]),
     Locking(map[], map[SLOT := 0], LockLoad(0, SLOT), map[]),
     Locking(map[], map[SLOT := 0], LockMark(0, SLOT, 1), map[]),
     Locking(map[], map[SLOT := 0], LockSaveHdr(0, SLOT, 1), map[]),
     Locking(map[SLOT := 1], map[SLOT := 0], LockLdx(0, SLOT, 1), map[]),
     Locking(map[SLOT := 1], map[SLOT := 0], LockCmp(0, SLOT, 1, 1), map[0 := 0]),
     Locking(map[SLOT := 1], map[SLOT := 0], LockStx(0, SLOT, 1), map[0 := 0]),
     Locked(SLOT),
     Locked(SLOT - 0x1000)]
  }

  lemma Arrives(disp: map<Addr, nat>, slots: map<Addr, Obj>, pc: Pc, pc': Pc, monitors: map<Tid, Obj>)
    ensures Goto(Locking(disp, slots, pc, monitors), 0, pc') == Locking(disp, slots, pc', monitors)
  {
    var th := Thread(SLOT, [], pc);
    assert map[0 := th][0 := th.(pc := pc')] == map[0 := th.(pc := pc')];
  }

  // ---------- every instruction of the attempt takes a state to the next ----------

  lemma SavesObject(s: State)
    requires s == Locking(map[], map[], LockSaveObj(0, SLOT), map[])
    ensures Exec(OneStack(), s, 0, true) == Locking(map[], map[SLOT := 0], LockLoad(0, SLOT), map[])
  {
    Arrives(map[], map[SLOT := 0], LockSaveObj(0, SLOT), LockLoad(0, SLOT), map[]);
    assert s.slotObj[SLOT := 0] == map[SLOT := 0];
  }

  lemma LoadsHeader(s: State)
    requires s == Locking(map[], map[SLOT := 0], LockLoad(0, SLOT), map[])
    ensures Exec(OneStack(), s, 0, true) == Locking(map[], map[SLOT := 0], LockMark(0, SLOT, 1), map[])
  {
    Arrives(map[], map[SLOT := 0], LockLoad(0, SLOT), LockMark(0, SLOT, 1), map[]);
  }

  lemma MarksHeader(s: State)
    requires s == Locking(map[], map[SLOT := 0], LockMark(0, SLOT, 1), map[])
    ensures Exec(OneStack(), s, 0, true) == Locking(map[], map[SLOT := 0], LockSaveHdr(0, SLOT, 1), map[])
  {
    Arrives(map[], map[SLOT := 0], LockMark(0, SLOT, 1), LockSaveHdr(0, SLOT, 1), map[]);
  }

  lemma SavesHeader(s: State)
    requires s == Locking(map[], map[SLOT := 0], LockSaveHdr(0, SLOT, 1), map[])
    ensures Exec(OneStack(), s, 0, true) == Locking(map[SLOT := 1], map[SLOT := 0], LockLdx(0, SLOT, 1), map[])
  {
    Arrives(map[SLOT := 1], map[SLOT := 0], LockSaveHdr(0, SLOT, 1), LockLdx(0, SLOT, 1), map[]);
    assert s.disp[SLOT := 1] == map[SLOT := 1];
  }

  lemma LoadsExclusive(s: State)
    requires s == Locking(map[SLOT := 1], map[SLOT := 0], LockLdx(0, SLOT, 1), map[])
    ensures Exec(OneStack(), s, 0, true) == Locking(map[SLOT := 1], map[SLOT := 0], LockCmp(0, SLOT, 1, 1), map[0 := 0])
  {
    Arrives(map[SLOT := 1], map[SLOT := 0], LockLdx(0, SLOT, 1), LockCmp(0, SLOT, 1, 1), map[0 := 0]);
    assert s.monitors[0 := 0] == map[0 := 0];
  }

  lemma Compares(s: State)
    requires s == Locking(map[SLOT := 1], map[SLOT := 0], LockCmp(0, SLOT, 1, 1), map[0 := 0])
    ensures Exec(OneStack(), s, 0, true) == Locking(map[SLOT := 1], map[SLOT := 0], LockStx(0, SLOT, 1), map[0 := 0])
  {
    Arrives(map[SLOT := 1], map[SLOT := 0], LockCmp(0, SLOT, 1, 1), LockStx(0, SLOT, 1), map[0 := 0]);
  }

  lemma StoresExclusive(s: State)
    requires s == Locking(map[SLOT := 1], map[SLOT := 0], LockStx(0, SLOT, 1), map[0 := 0])
    ensures Exec(OneStack(), s, 0, true) == Locked(SLOT)
  {
    var th := s.threads[0];
    assert s.header[0 := SLOT] == map[0 := SLOT];
    assert th.recs + [Rec(SLOT, 0)] == [Rec(SLOT, 0)];
    assert StoreHeader(s, 0, SLOT).monitors == map[];
    assert map[0 := th][0 := Thread(SLOT, [Rec(SLOT, 0)], Idle)] == map[0 := Thread(SLOT, [Rec(SLOT, 0)], Idle)];
  }

  lemma Executes(i: nat)
    requires 1 <= i <= 7
    ensures Exec(OneStack(), Trace()[i], 0, true) == Trace()[i + 1]
  {
    var s := Trace()[i];
    if i == 1 {
      SavesObject(s);
    } else if i == 2 {
      LoadsHeader(s);
    } else if i == 3 {
      MarksHeader(s);
    } else if i == 4 {
      SavesHeader(s);
    } else if i == 5 {
      LoadsExclusive(s);
    } else if i == 6 {
      Compares(s);
    } else {
      StoresExclusive(s);
    }
  }

  lemma Moves(i: nat)
    requires i < 9
    ensures Next(OneStack(), Trace()[i], Trace()[i + 1])
  {
    var l, s, s' := OneStack(), Trace()[i], Trace()[i + 1];
    if i == 0 {
      Takes(l, s, s', BeginLock(0, SLOT));
    } else if i == 8 {
      Takes(l, s, s', MoveSp(SLOT - 0x1000));
    } else {
      Executes(i);
      Takes(l, s, s', Run(true));
    }
  }

  lemma Takes(l: Layout, s: State, s': State, a: Action)
    requires Enabled(l, s, 0, a) && s' == Apply(l, s, 0, a)
    ensures Next(l, s, s')
  {
  }

  lemma IsTrace()
    ensures IsRun(OneStack(), map[0 := 1], Trace())
  {
    forall i | 0 <= i < 9
      ensures Next(OneStack(), Trace()[i], Trace()[i + 1])
    {
      Moves(i);
    }
  }

  /** At the end of that run the thread holds the object, its record is one page above sp, and the next attempt to
      lock the object is slow. */
  lemma {:induction false} BoundaryReached(k: nat)
    requires k >= 10
    ensures IsRun(OneStack(), map[0 := 1], Trace())
    ensures var l, s := OneStack(), Trace()[9];
            && Enabled(l, s, 0, BeginLock(0, 0x7000)) && Holds(s.threads[0], 0) && s.header[0] == s.threads[0].sp + l.Page()
            && var s' := Solo(l, Apply(l, s, 0, BeginLock(0, 0x7000)), 0, k);
            s'.threads[0].pc.Idle? && s'.threads[0].recs == s.threads[0].recs
  {
    IsTrace();
    var s := Trace()[9];
    assert s == Locked(0x7000) && s.threads[0].recs[0].obj == 0;
    PageBoundaryIsSlow(OneStack(), map[0 := 1], Trace(), 9, 0, 0, 0x7000, k);
  }
}
