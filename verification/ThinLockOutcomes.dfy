/** How lock and unlock end in any interleaving, with store-exclusives failing at any time. */
module ThinLockOutcomes {
  import opened Words
  import opened ThinLock
  import opened ThinLockSafety
  import opened ThinLockSteps
  import opened ThinLockTheorems

  // ---------- one instruction ----------

  /** An instruction of t changes no other thread, and headers and records only when it ends the call. */
  ghost predicate Contained(s: State, s': State, t: Tid) {
    && t in s.threads && t in s'.threads && s'.threads == s.threads[t := s'.threads[t]]
    && (!s'.threads[t].pc.Idle? ==> s'.header == s.header && s'.threads[t].recs == s.threads[t].recs)
  }

  predicate Saving(pc: Pc) { pc.LockSaveObj? || pc.LockLoad? || pc.LockMark? || pc.LockSaveHdr? || pc.LockLdx? || pc.LockCmp? }

  lemma SavingContained(l: Layout, s: State, t: Tid, stxOk: bool)
    requires t in s.threads && Saving(s.threads[t].pc)
    ensures Contained(s, Exec(l, s, t, stxOk), t)
  {
  }

  lemma TestingContained(l: Layout, s: State, t: Tid, stxOk: bool)
    requires t in s.threads && Locking(s.threads[t].pc) && !Saving(s.threads[t].pc)
    ensures Contained(s, Exec(l, s, t, stxOk), t)
  {
  }

  lemma UnlockingContained(l: Layout, s: State, t: Tid, stxOk: bool)
    requires t in s.threads && Unlocking(s.threads[t].pc)
    ensures Contained(s, Exec(l, s, t, stxOk), t)
  {
  }

  lemma ExecContained(l: Layout, s: State, t: Tid, stxOk: bool)
    requires t in s.threads && !s.threads[t].pc.Idle? && !s.threads[t].pc.UnlockSlow?
    ensures Contained(s, Exec(l, s, t, stxOk), t)
  {
    if Saving(s.threads[t].pc) {
      SavingContained(l, s, t, stxOk);
    } else if Locking(s.threads[t].pc) {
      TestingContained(l, s, t, stxOk);
    } else {
      UnlockingContained(l, s, t, stxOk);
    }
  }

  // ---------- one step of a run ----------

  lemma StepContained(l: Layout, s: State, t: Tid, a: Action)
    requires Enabled(l, s, t, a)
    ensures var s' := Apply(l, s, t, a);
            && t in s'.threads && s'.threads == s.threads[t := s'.threads[t]]
            && (!Ends(s, s', t) ==> s'.header == s.header && s'.threads[t].recs == s.threads[t].recs)
            && (s.threads[t].pc.Idle? ==> s'.threads[t].pc.Idle? || s'.threads[t].pc.LockSaveObj? || s'.threads[t].pc.UnlockLoad?)
  {
    if a.Run? {
      ExecContained(l, s, t, a.stxOk);
    }
  }

  ghost predicate Ends(s: State, s': State, t: Tid) {
    t in s.threads && t in s'.threads && !s.threads[t].pc.Idle? && s'.threads[t].pc.Idle?
  }

  lemma Taken(l: Layout, orig: map<Obj, nat>, run: seq<State>, n: nat) returns (t: Tid, a: Action)
    requires IsRun(l, orig, run) && n + 1 < |run|
    ensures Enabled(l, run[n], t, a) && run[n + 1] == Apply(l, run[n], t, a)
  {
    assert Next(l, run[n], run[n + 1]);
    t, a :| Enabled(l, run[n], t, a) && run[n + 1] == Apply(l, run[n], t, a);
  }

  /** A thread that is inside a call moves on by executing an instruction. */
  lemma Moved(l: Layout, orig: map<Obj, nat>, run: seq<State>, n: nat, t: Tid) returns (stxOk: bool)
    requires IsRun(l, orig, run) && n + 1 < |run| && t in run[n].threads && t in run[n + 1].threads
    requires !run[n].threads[t].pc.Idle? && run[n + 1].threads[t] != run[n].threads[t]
    ensures !run[n].threads[t].pc.UnlockSlow? && run[n + 1] == Exec(l, run[n], t, stxOk)
  {
    var u, a := Taken(l, orig, run, n);
    StepContained(l, run[n], u, a);
    stxOk := a.Run? && a.stxOk;
  }

  // ---------- what a call has done when it ends ----------

  /** The innermost record is gone; the header is the original one again if that was the outermost record of its object,
      and unchanged otherwise. */
  ghost predicate Unlocked(orig: map<Obj, nat>, s: State, s': State, t: Tid)
    requires t in s.threads && t in s'.threads
  {
    var recs := s.threads[t].recs;
    && |recs| > 0
    && var k := |recs| - 1;
    && s'.threads[t].recs == recs[..k] && recs[k].obj in orig
    && s'.header == if IsOuter(recs, k) then s.header[recs[k].obj := orig[recs[k].obj]] else s.header
  }

  lemma UnlockEnds(l: Layout, orig: map<Obj, nat>, s: State, t: Tid, stxOk: bool)
    requires Inv(l, orig, s) && t in s.threads && Unlocking(s.threads[t].pc) && Exec(l, s, t, stxOk).threads[t].pc.Idle?
    ensures Unlocked(orig, s, Exec(l, s, t, stxOk), t)
  {
    UnlockEndingPc(l, s, t, stxOk);
    if s.threads[t].pc.UnlockStx? {
      StoreEnds(l, orig, s, t, stxOk);
    } else {
      ZeroEnds(l, orig, s, t, stxOk);
    }
  }

  lemma UnlockEndingPc(l: Layout, s: State, t: Tid, stxOk: bool)
    requires t in s.threads && Unlocking(s.threads[t].pc) && Exec(l, s, t, stxOk).threads[t].pc.Idle?
    ensures var pc := s.threads[t].pc; (pc.UnlockTest? && pc.hdr == 0) || (pc.UnlockStx? && StoreExclusiveOk(s, t, pc.o, stxOk))
  {
  }

  lemma StoreEnds(l: Layout, orig: map<Obj, nat>, s: State, t: Tid, stxOk: bool)
    requires Inv(l, orig, s) && t in s.threads && s.threads[t].pc.UnlockStx? && StoreExclusiveOk(s, t, s.threads[t].pc.o, stxOk)
    ensures |s.threads[t].recs| > 0
    ensures var th, s' := s.threads[t], Exec(l, s, t, stxOk);
            var k := |th.recs| - 1;
            && IsOuter(th.recs, k) && s'.threads[t].recs == th.recs[..k] && th.recs[k].obj in orig
            && s'.header == s.header[th.recs[k].obj := orig[th.recs[k].obj]]
  {
    assert ThreadPcOk(l, s, t) && RecsOk(l, orig, s, t);
    assert RecOk(l, orig, s, t, s.threads[t], |s.threads[t].recs| - 1);
  }

  lemma ZeroEnds(l: Layout, orig: map<Obj, nat>, s: State, t: Tid, stxOk: bool)
    requires Inv(l, orig, s) && t in s.threads && s.threads[t].pc.UnlockTest? && s.threads[t].pc.hdr == 0
    ensures |s.threads[t].recs| > 0
    ensures var th, s' := s.threads[t], Exec(l, s, t, stxOk);
            var k := |th.recs| - 1;
            !IsOuter(th.recs, k) && s'.threads[t].recs == th.recs[..k] && th.recs[k].obj in orig && s'.header == s.header
  {
    assert ThreadPcOk(l, s, t) && RecsOk(l, orig, s, t);
    assert RecOk(l, orig, s, t, s.threads[t], |s.threads[t].recs| - 1);
  }

  /** Whenever an unlock ends, the thread's innermost record is gone, and the object has its original header back
      exactly when that was the outermost record. */
  lemma UnlockReleases(l: Layout, orig: map<Obj, nat>, run: seq<State>, n: nat, t: Tid)
    requires IsRun(l, orig, run) && n + 1 < |run| && t in run[n].threads && t in run[n + 1].threads
    requires Unlocking(run[n].threads[t].pc) && run[n + 1].threads[t].pc.Idle?
    ensures Unlocked(orig, run[n], run[n + 1], t)
  {
    RunKeepsInv(l, orig, run, n);
    var stxOk := Moved(l, orig, run, n, t);
    UnlockEnds(l, orig, run[n], t, stxOk);
  }

  /** The three ways a lock attempt ends: it takes a free object, re-enters its own, or is sent to the slow path. */
  ghost predicate LockOutcome(l: Layout, orig: map<Obj, nat>, s: State, s': State, t: Tid)
    requires t in s.threads && t in s'.threads && Locking(s.threads[t].pc)
  {
    var th := s.threads[t];
    var o, slot := th.pc.o, th.pc.slot;
    && o in s.header && o in orig
    && var near := Holds(th, o) && s.header[o] < th.sp + l.Page();
    || (&& s.header[o] == orig[o] && (forall u :: u in s.threads ==> !Holds(s.threads[u], o))
        && s'.header == s.header[o := slot] && s'.threads[t].recs == th.recs + [Rec(slot, o)])
    || (near && s'.header == s.header && s'.threads[t].recs == th.recs + [Rec(slot, o)])
    || (th.pc.LockTest? && !near && s'.header == s.header && s'.threads[t].recs == th.recs)
  }

  lemma LockEnds(l: Layout, orig: map<Obj, nat>, s: State, t: Tid, stxOk: bool)
    requires Inv(l, orig, s) && t in s.threads && Locking(s.threads[t].pc) && Exec(l, s, t, stxOk).threads[t].pc.Idle?
    ensures LockOutcome(l, orig, s, Exec(l, s, t, stxOk), t)
  {
    var th := s.threads[t];
    EndingPc(l, s, t, stxOk);
    if th.pc.LockStx? {
      SwapOutcome(l, orig, s, t, stxOk);
    } else {
      TestOutcome(l, orig, s, t, stxOk);
    }
  }

  lemma EndingPc(l: Layout, s: State, t: Tid, stxOk: bool)
    requires t in s.threads && Locking(s.threads[t].pc) && Exec(l, s, t, stxOk).threads[t].pc.Idle?
    ensures var pc := s.threads[t].pc; pc.LockTest? || (pc.LockStx? && StoreExclusiveOk(s, t, pc.o, stxOk))
  {
    if Saving(s.threads[t].pc) {
      SavingPc(l, s, t, stxOk);
    }
  }

  lemma SwapOutcome(l: Layout, orig: map<Obj, nat>, s: State, t: Tid, stxOk: bool)
    requires Inv(l, orig, s) && t in s.threads && s.threads[t].pc.LockStx? && StoreExclusiveOk(s, t, s.threads[t].pc.o, stxOk)
    ensures LockOutcome(l, orig, s, Exec(l, s, t, stxOk), t)
  {
    assert ThreadPcOk(l, s, t);
    UnlockedHeader(l, orig, s, s.threads[t].pc.o);
  }

  lemma TestOutcome(l: Layout, orig: map<Obj, nat>, s: State, t: Tid, stxOk: bool)
    requires Inv(l, orig, s) && t in s.threads && s.threads[t].pc.LockTest?
    ensures LockOutcome(l, orig, s, Exec(l, s, t, stxOk), t)
  {
    var th := s.threads[t];
    assert ThreadPcOk(l, s, t) && RecsOk(l, orig, s, t);
    if i :| 0 <= i < |th.recs| && th.recs[i].obj == th.pc.o {
      var k := HolderSlot(l, orig, s, t, i);
      RecursiveAt(l, th, th.pc.o, k);
    }
  }

  /** Whenever a lock attempt ends, it ends in one of these ways. */
  lemma LockTakes(l: Layout, orig: map<Obj, nat>, run: seq<State>, n: nat, t: Tid)
    requires IsRun(l, orig, run) && n + 1 < |run| && t in run[n].threads && t in run[n + 1].threads
    requires Locking(run[n].threads[t].pc) && run[n + 1].threads[t].pc.Idle?
    ensures LockOutcome(l, orig, run[n], run[n + 1], t)
  {
    RunKeepsInv(l, orig, run, n);
    var stxOk := Moved(l, orig, run, n, t);
    LockEnds(l, orig, run[n], t, stxOk);
  }

  /** No other step changes a header or a thread's records. */
  lemma OnlyEndsChange(l: Layout, orig: map<Obj, nat>, run: seq<State>, n: nat) returns (t: Tid)
    requires IsRun(l, orig, run) && n + 1 < |run|
    ensures forall u :: u in run[n].threads && u != t ==> u in run[n + 1].threads && run[n + 1].threads[u] == run[n].threads[u]
    ensures t in run[n].threads && t in run[n + 1].threads
    ensures run[n + 1].header != run[n].header || run[n + 1].threads[t].recs != run[n].threads[t].recs ==> Ends(run[n], run[n + 1], t)
  {
    var u, a := Taken(l, orig, run, n);
    StepContained(l, run[n], u, a);
    t := u;
  }

  // ---------- the slow path is taken for a reason ----------

  /** From m to n the thread is inside the same attempt to lock o with the record at slot. */
  ghost predicate Attempt(run: seq<State>, m: nat, n: nat, t: Tid, o: Obj, slot: Addr) {
    m <= n < |run| && forall k :: m <= k <= n ==> LockingAt(run[k], t, o, slot)
  }

  ghost predicate LockingAt(s: State, t: Tid, o: Obj, slot: Addr) {
    t in s.threads && Locking(s.threads[t].pc) && s.threads[t].pc.o == o && s.threads[t].pc.slot == slot
  }

  function Marked(h: nat): nat { if h % 2 == 0 then h + 1 else h }

  predicate HasHdr(pc: Pc) { pc.LockMark? || pc.LockSaveHdr? || pc.LockLdx? || pc.LockCmp? || pc.LockStx? }

  predicate Mismatched(pc: Pc) { pc.LockSub? || pc.LockMask? || pc.LockSaveRes? || pc.LockTest? }

  /** The instruction of a lock attempt that follows pc, for header h; `done` when a store-exclusive succeeds. */
  function NextPc(l: Layout, th: Thread, h: nat, done: bool): Pc
    requires Locking(th.pc)
  {
    match th.pc
    case LockSaveObj(o, slot) => LockLoad(o, slot)
    case LockLoad(o, slot) => LockMark(o, slot, h)
    case LockMark(o, slot, hdr) => LockSaveHdr(o, slot, Marked(hdr))
    case LockSaveHdr(o, slot, hdr) => LockLdx(o, slot, hdr)
    case LockLdx(o, slot, hdr) => LockCmp(o, slot, hdr, h)
    case LockCmp(o, slot, hdr, tmp) => if tmp == hdr then LockStx(o, slot, hdr) else LockSub(o, slot, tmp)
    case LockStx(o, slot, hdr) => if done then Idle else LockLdx(o, slot, hdr)
    case LockSub(o, slot, hdr) => LockMask(o, slot, (hdr - th.sp) % WORD)
    case LockMask(o, slot, hdr) => LockSaveRes(o, slot, And(hdr, PageBits(l)))
    case LockSaveRes(o, slot, hdr) => LockTest(o, slot, hdr)
    case LockTest(_, _, _) => Idle
  }

  ghost predicate FollowsPc(l: Layout, s: State, s': State, t: Tid)
    requires t in s.threads && t in s'.threads && Locking(s.threads[t].pc)
  {
    var th := s.threads[t];
    exists done :: s'.threads[t].pc == NextPc(l, th, Read(s.header, th.pc.o, 0), done)
  }

  lemma SavingPc(l: Layout, s: State, t: Tid, stxOk: bool)
    requires t in s.threads && Saving(s.threads[t].pc)
    ensures var s' := Exec(l, s, t, stxOk); t in s'.threads && FollowsPc(l, s, s', t)
  {
    var th := s.threads[t];
    assert Exec(l, s, t, stxOk).threads[t].pc == NextPc(l, th, Read(s.header, th.pc.o, 0), false);
  }

  lemma TestingPc(l: Layout, s: State, t: Tid, stxOk: bool)
    requires t in s.threads && Locking(s.threads[t].pc) && !Saving(s.threads[t].pc)
    ensures var s' := Exec(l, s, t, stxOk); t in s'.threads && FollowsPc(l, s, s', t)
  {
    var th := s.threads[t];
    assert Exec(l, s, t, stxOk).threads[t].pc == NextPc(l, th, Read(s.header, th.pc.o, 0), StoreExclusiveOk(s, t, th.pc.o, stxOk));
  }

  lemma UnlockingPc(l: Layout, s: State, t: Tid, stxOk: bool)
    requires t in s.threads && Unlocking(s.threads[t].pc)
    ensures var s' := Exec(l, s, t, stxOk); t in s'.threads && !Locking(s'.threads[t].pc)
  {
    var pc := s.threads[t].pc;
    if pc.UnlockLdx? || pc.UnlockCmp? || pc.UnlockStx? {
      SwappingPc(l, s, t, stxOk);
    }
  }

  lemma SwappingPc(l: Layout, s: State, t: Tid, stxOk: bool)
    requires t in s.threads && var pc := s.threads[t].pc; pc.UnlockLdx? || pc.UnlockCmp? || pc.UnlockStx?
    ensures var s' := Exec(l, s, t, stxOk); t in s'.threads && !Locking(s'.threads[t].pc)
  {
  }

  /** In a lock attempt a thread has stood still or executed the instruction before. */
  ghost predicate Came(l: Layout, s: State, s': State, t: Tid) {
    && t in s.threads && t in s'.threads
    && (Locking(s'.threads[t].pc) && !s'.threads[t].pc.LockSaveObj? ==>
          Locking(s.threads[t].pc) && (s'.threads[t] == s.threads[t] || FollowsPc(l, s, s', t)))
  }

  ghost predicate CameTo(l: Layout, run: seq<State>, t: Tid, n: nat) { 0 < n < |run| && Came(l, run[n - 1], run[n], t) }

  /** What a run is to one thread's lock attempts. */
  ghost predicate Story(l: Layout, run: seq<State>, t: Tid) {
    && |run| > 0 && t in run[0].threads && run[0].threads[t].pc.Idle?
    && forall n :: 0 < n < |run| ==> CameTo(l, run, t, n)
  }

  lemma StepCame(l: Layout, s: State, t: Tid, u: Tid, a: Action)
    requires Enabled(l, s, u, a) && t in s.threads
    ensures Came(l, s, Apply(l, s, u, a), t)
  {
    StepContained(l, s, u, a);
    if u == t && a.Run? {
      var pc := s.threads[t].pc;
      if Saving(pc) {
        SavingPc(l, s, t, a.stxOk);
      } else if Locking(pc) {
        TestingPc(l, s, t, a.stxOk);
      } else {
        UnlockingPc(l, s, t, a.stxOk);
      }
    }
  }

  lemma HasStory(l: Layout, orig: map<Obj, nat>, run: seq<State>, t: Tid)
    requires IsRun(l, orig, run) && t in l.stacks
    ensures Story(l, run, t)
  {
    forall n | 0 < n < |run|
      ensures CameTo(l, run, t, n)
    {
      RunKeepsInv(l, orig, run, n - 1);
      var u, a := Taken(l, orig, run, n - 1);
      StepCame(l, run[n - 1], t, u, a);
    }
  }

  /** A marked header in a register was loaded just now or was there before. */
  lemma HdrCame(l: Layout, run: seq<State>, n: nat, t: Tid)
    requires Story(l, run, t) && n < |run| && t in run[n].threads && HasHdr(run[n].threads[t].pc)
    ensures n > 0 && t in run[n - 1].threads && Locking(run[n - 1].threads[t].pc)
    ensures var pc, before := run[n].threads[t].pc, run[n - 1].threads[t].pc;
            && LockingAt(run[n], t, pc.o, pc.slot) && LockingAt(run[n - 1], t, pc.o, pc.slot)
            && if before.LockLoad? then Marked(pc.hdr) == Marked(Read(run[n - 1].header, pc.o, 0))
               else HasHdr(before) && Marked(pc.hdr) == Marked(before.hdr)
  {
    assert n > 0 ==> CameTo(l, run, t, n);
    if run[n - 1].threads[t] != run[n].threads[t] {
      var th, h := run[n - 1].threads[t], Read(run[n - 1].header, run[n - 1].threads[t].pc.o, 0);
      var done :| run[n].threads[t].pc == NextPc(l, th, h, done);
      HdrNext(l, th, h, done);
    }
  }

  lemma HdrNext(l: Layout, th: Thread, h: nat, done: bool)
    requires Locking(th.pc) && HasHdr(NextPc(l, th, h, done))
    ensures var pc, before := NextPc(l, th, h, done), th.pc;
            && pc.o == before.o && pc.slot == before.slot
            && if before.LockLoad? then Marked(pc.hdr) == Marked(h) else HasHdr(before) && Marked(pc.hdr) == Marked(before.hdr)
  {
  }

  /** The page test follows a compare that failed. */
  lemma MismatchCame(l: Layout, run: seq<State>, n: nat, t: Tid)
    requires Story(l, run, t) && n < |run| && t in run[n].threads && Mismatched(run[n].threads[t].pc)
    ensures n > 0 && t in run[n - 1].threads
    ensures var pc, before := run[n].threads[t].pc, run[n - 1].threads[t].pc;
            && LockingAt(run[n], t, pc.o, pc.slot) && LockingAt(run[n - 1], t, pc.o, pc.slot)
            && (Mismatched(before) || (before.LockCmp? && before.tmp != before.hdr))
  {
    assert n > 0 ==> CameTo(l, run, t, n);
    if run[n - 1].threads[t] != run[n].threads[t] {
      var th, h := run[n - 1].threads[t], Read(run[n - 1].header, run[n - 1].threads[t].pc.o, 0);
      var done :| run[n].threads[t].pc == NextPc(l, th, h, done);
      MismatchNext(l, th, h, done);
    }
  }

  lemma MismatchNext(l: Layout, th: Thread, h: nat, done: bool)
    requires Locking(th.pc) && Mismatched(NextPc(l, th, h, done))
    ensures var pc, before := NextPc(l, th, h, done), th.pc;
            && pc.o == before.o && pc.slot == before.slot && (Mismatched(before) || (before.LockCmp? && before.tmp != before.hdr))
  {
  }

  /** A compare follows a load-exclusive. */
  lemma CmpCame(l: Layout, run: seq<State>, n: nat, t: Tid)
    requires Story(l, run, t) && n < |run| && t in run[n].threads && run[n].threads[t].pc.LockCmp?
    ensures n > 0 && t in run[n - 1].threads
    ensures var pc, before := run[n].threads[t].pc, run[n - 1].threads[t].pc;
            && LockingAt(run[n], t, pc.o, pc.slot) && LockingAt(run[n - 1], t, pc.o, pc.slot)
            && (before == pc || (before.LockLdx? && pc.tmp == Read(run[n - 1].header, pc.o, 0)))
  {
    assert n > 0 ==> CameTo(l, run, t, n);
  }

  lemma Longer(run: seq<State>, m: nat, n: nat, t: Tid, o: Obj, slot: Addr)
    requires Attempt(run, m, n, t, o, slot) && n + 1 < |run| && LockingAt(run[n + 1], t, o, slot)
    ensures Attempt(run, m, n + 1, t, o, slot)
  {
  }

  /** The header a thread compares with is the one it loaded, marked, earlier in the attempt. */
  lemma {:induction false} HdrLoaded(l: Layout, run: seq<State>, n: nat, t: Tid) returns (m: nat)
    requires Story(l, run, t) && n < |run| && t in run[n].threads && HasHdr(run[n].threads[t].pc)
    ensures var pc := run[n].threads[t].pc;
            Attempt(run, m, n, t, pc.o, pc.slot) && Marked(pc.hdr) == Marked(Read(run[m].header, pc.o, 0))
  {
    HdrCame(l, run, n, t);
    var pc := run[n].threads[t].pc;
    if run[n - 1].threads[t].pc.LockLoad? {
      m := n - 1;
    } else {
      m := HdrLoaded(l, run, n - 1, t);
    }
    Longer(run, m, n - 1, t, pc.o, pc.slot);
  }

  /** What it compares it with is what the load-exclusive found earlier in the attempt. */
  lemma {:induction false} CmpLoaded(l: Layout, run: seq<State>, n: nat, t: Tid) returns (m: nat)
    requires Story(l, run, t) && n < |run| && t in run[n].threads && run[n].threads[t].pc.LockCmp?
    ensures var pc := run[n].threads[t].pc; Attempt(run, m, n, t, pc.o, pc.slot) && pc.tmp == Read(run[m].header, pc.o, 0)
  {
    CmpCame(l, run, n, t);
    var pc := run[n].threads[t].pc;
    if run[n - 1].threads[t].pc.LockLdx? {
      m := n - 1;
    } else {
      m := CmpLoaded(l, run, n - 1, t);
    }
    Longer(run, m, n - 1, t, pc.o, pc.slot);
  }

  /** The last compare of an attempt that reached the page test. */
  lemma {:induction false} MismatchAt(l: Layout, run: seq<State>, n: nat, t: Tid) returns (m: nat)
    requires Story(l, run, t) && n < |run| && t in run[n].threads && Mismatched(run[n].threads[t].pc)
    ensures var pc := run[n].threads[t].pc; Attempt(run, m, n, t, pc.o, pc.slot)
    ensures var before := run[m].threads[t].pc; before.LockCmp? && before.tmp != before.hdr
  {
    MismatchCame(l, run, n, t);
    var pc := run[n].threads[t].pc;
    if Mismatched(run[n - 1].threads[t].pc) {
      m := MismatchAt(l, run, n - 1, t);
    } else {
      m := n - 1;
    }
    Longer(run, m, n - 1, t, pc.o, pc.slot);
  }

  lemma Joined(run: seq<State>, k: nat, m: nat, n: nat, t: Tid, o: Obj, slot: Addr)
    requires Attempt(run, k, m, t, o, slot) && Attempt(run, m, n, t, o, slot)
    ensures Attempt(run, k, n, t, o, slot)
  {
  }

  /** Two different values read in an attempt: one of them is not the original header. */
  lemma SawTaken(l: Layout, run: seq<State>, m: nat, t: Tid, free: nat) returns (k: nat)
    requires Story(l, run, t) && m < |run| && t in run[m].threads && free % 2 == 1
    requires var pc := run[m].threads[t].pc; pc.LockCmp? && pc.tmp != pc.hdr && pc.hdr % 2 == 1
    ensures var pc := run[m].threads[t].pc; Attempt(run, k, m, t, pc.o, pc.slot) && Read(run[k].header, pc.o, 0) != free
  {
    if run[m].threads[t].pc.tmp != free {
      k := CmpLoaded(l, run, m, t);
    } else {
      k := HdrLoaded(l, run, m, t);
    }
  }

  /** A lock attempt goes to the page test, and so possibly to the slow path, only if the object was locked at some
      moment of the attempt. */
  lemma SlowOnlyIfTaken(l: Layout, orig: map<Obj, nat>, run: seq<State>, n: nat, t: Tid) returns (k: nat)
    requires IsRun(l, orig, run) && n < |run| && t in run[n].threads && Mismatched(run[n].threads[t].pc)
    ensures var pc := run[n].threads[t].pc;
            Attempt(run, k, n, t, pc.o, pc.slot) && pc.o in orig && pc.o in run[k].header && run[k].header[pc.o] != orig[pc.o]
  {
    RunKeepsInv(l, orig, run, n);
    HasStory(l, orig, run, t);
    var m := MismatchAt(l, run, n, t);
    RunKeepsInv(l, orig, run, m);
    CompareFacts(l, orig, run[m], t);
    var pc := run[m].threads[t].pc;
    k := SawTaken(l, run, m, t, orig[pc.o]);
    RunKeepsInv(l, orig, run, k);
    Joined(run, k, m, n, t, pc.o, pc.slot);
  }

  lemma CompareFacts(l: Layout, orig: map<Obj, nat>, s: State, t: Tid)
    requires Inv(l, orig, s) && t in s.threads && s.threads[t].pc.LockCmp?
    ensures var pc := s.threads[t].pc; pc.o in orig && orig[pc.o] % 2 == 1 && pc.hdr % 2 == 1
  {
    assert ThreadPcOk(l, s, t);
    OddHeader(orig[s.threads[t].pc.o]);
  }

  lemma OddHeader(h: nat)
    requires h % 8 == 1
    ensures h % 2 == 1
  {
  }
}
