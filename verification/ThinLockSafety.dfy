/** Safety of the stack-locking fast paths over every interleaving: one inductive invariant, and
    the properties read off from it. */
module ThinLockSafety {
  import opened Words
  import opened ThinLock

  // ---------- the invariant ----------

  /** The header value `h` that thread t read while locking o: t's own outermost slot if t already
      holds o; otherwise an unlocked word or an address in some other thread's stack. */
  ghost predicate Seen(l: Layout, t: Tid, th: Thread, o: Obj, h: nat) {
    && h < WORD
    && (forall i :: 0 <= i < |th.recs| && th.recs[i].obj == o && IsOuter(th.recs, i) ==> h == th.recs[i].slot)
    && (!Holds(th, o) ==> h % 8 == 1 || exists u :: u != t && l.InStack(u, h))
  }

  /** What the page test must answer: t already holds o, and the outermost slot is within a page of sp. */
  ghost predicate Recursive(l: Layout, th: Thread, o: Obj) {
    exists i :: 0 <= i < |th.recs| && th.recs[i].obj == o && IsOuter(th.recs, i) && th.recs[i].slot < th.sp + l.Page()
  }

  predicate Unlocking(pc: Pc) {
    pc.UnlockLoad? || pc.UnlockTest? || pc.UnlockObj? || pc.UnlockLdx? || pc.UnlockCmp? || pc.UnlockStx?
  }

  predicate Locking(pc: Pc) { !pc.Idle? && !pc.UnlockSlow? && !Unlocking(pc) }

  ghost predicate LockPcOk(l: Layout, s: State, t: Tid, th: Thread)
    requires Locking(th.pc)
  {
    var o, slot := th.pc.o, th.pc.slot;
    && o in s.header
    && FreshSlot(l, t, th, slot)
    && (!th.pc.LockSaveObj? ==> Read(s.slotObj, slot, 0) == o && slot in s.slotObj)
    && (th.pc.LockMark? ==> th.pc.hdr < WORD)
    && (th.pc.LockSaveHdr? || th.pc.LockLdx? || th.pc.LockCmp? || th.pc.LockStx? ==> th.pc.hdr % 2 == 1)
    && (th.pc.LockLdx? || th.pc.LockCmp? || th.pc.LockStx? ==> Read(s.disp, slot, 0) == th.pc.hdr)
    && (th.pc.LockCmp? ==> Seen(l, t, th, o, th.pc.tmp))
    && (th.pc.LockCmp? && t in s.monitors && s.monitors[t] == o ==> s.header[o] == th.pc.tmp)
    && (th.pc.LockStx? && t in s.monitors && s.monitors[t] == o ==> s.header[o] == th.pc.hdr)
    && (th.pc.LockSub? ==> Seen(l, t, th, o, th.pc.hdr))
    && (th.pc.LockMask? ==> th.pc.hdr < WORD && (th.pc.hdr % 8 == 0 && th.pc.hdr < l.Page() <==> Recursive(l, th, o)))
    && (th.pc.LockSaveRes? || th.pc.LockTest? ==> (th.pc.hdr == 0 <==> Recursive(l, th, o)))
    && (th.pc.LockTest? ==> Read(s.disp, slot, 0) == th.pc.hdr)
  }

  ghost predicate UnlockPcOk(s: State, t: Tid, th: Thread)
    requires Unlocking(th.pc)
  {
    && |th.recs| > 0
    && var r := th.recs[|th.recs| - 1];
    && th.pc.slot == r.slot
    && (!th.pc.UnlockLoad? ==> th.pc.hdr == Read(s.disp, r.slot, 0))
    && (th.pc.UnlockObj? || th.pc.UnlockLdx? || th.pc.UnlockCmp? || th.pc.UnlockStx? ==> th.pc.hdr != 0)
    && (th.pc.UnlockLdx? || th.pc.UnlockCmp? || th.pc.UnlockStx? ==> th.pc.o == r.obj)
    && (th.pc.UnlockCmp? ==> th.pc.tmp == r.slot)
  }

  ghost predicate PcOk(l: Layout, s: State, t: Tid, th: Thread) {
    && !th.pc.UnlockSlow?
    && (Unlocking(th.pc) ==> UnlockPcOk(s, t, th))
    && (Locking(th.pc) ==> LockPcOk(l, s, t, th))
  }

  ghost predicate RecOk(l: Layout, orig: map<Obj, nat>, s: State, t: Tid, th: Thread, i: nat)
    requires i < |th.recs|
  {
    var r := th.recs[i];
    && l.InStack(t, r.slot) && th.sp <= r.slot
    && r.obj in orig && r.obj in s.header
    && Read(s.slotObj, r.slot, 0) == r.obj
    && (forall j :: 0 <= j < i ==> NoOverlap(th.recs[j].slot, r.slot))
    && (if IsOuter(th.recs, i) then Read(s.disp, r.slot, 0) == orig[r.obj] && s.header[r.obj] == r.slot
        else Read(s.disp, r.slot, 0) == 0)
  }

  ghost predicate RecsOk(l: Layout, orig: map<Obj, nat>, s: State, t: Tid) {
    t in s.threads &&
    var th := s.threads[t];
    && l.ValidSp(t, th.sp)
    && (forall i :: 0 <= i < |th.recs| ==> RecOk(l, orig, s, t, th, i))
  }

  ghost predicate ThreadPcOk(l: Layout, s: State, t: Tid) {
    t in s.threads && PcOk(l, s, t, s.threads[t])
  }

  /** Some thread's outermost record of o is at the address in o's header. */
  ghost predicate Owned(s: State, o: Obj)
    requires o in s.header
  {
    exists t, i :: t in s.threads && 0 <= i < |s.threads[t].recs| && IsOuter(s.threads[t].recs, i)
                   && s.threads[t].recs[i] == Rec(s.header[o], o)
  }

  ghost predicate Inv(l: Layout, orig: map<Obj, nat>, s: State) {
    && l.Valid()
    && s.header.Keys == orig.Keys
    && (forall o :: o in orig ==> orig[o] % 8 == 1 && orig[o] < WORD)
    && s.threads.Keys == l.stacks.Keys
    && (forall t {:trigger RecsOk(l, orig, s, t)} :: t in s.threads ==> RecsOk(l, orig, s, t))
    && (forall t {:trigger ThreadPcOk(l, s, t)} :: t in s.threads ==> ThreadPcOk(l, s, t))
    && (forall o {:trigger Owned(s, o)} :: o in s.header ==> s.header[o] == orig[o] || Owned(s, o))
  }

  // ---------- consequences used by the step proofs ----------

  lemma SlotsApart(l: Layout, t: Tid, u: Tid, a: Addr)
    requires l.Valid() && l.InStack(t, a) && l.InStack(u, a)
    ensures t == u
  {
    assert t == u || l.Apart(t, u);
  }

  lemma {:induction false} OuterExists(recs: seq<Rec>, i: nat) returns (k: nat)
    requires i < |recs|
    ensures k <= i && recs[k].obj == recs[i].obj && IsOuter(recs, k)
  {
    if IsOuter(recs, i) {
      k := i;
    } else {
      var j :| 0 <= j < i && recs[j].obj == recs[i].obj;
      k := OuterExists(recs, j);
    }
  }

  lemma OuterUnique(recs: seq<Rec>, i: nat, k: nat)
    requires i < |recs| && k < |recs| && IsOuter(recs, i) && IsOuter(recs, k) && recs[i].obj == recs[k].obj
    ensures i == k
  {
  }

  /** If a thread holds o, the header of o is that thread's outermost slot for o. */
  lemma HolderSlot(l: Layout, orig: map<Obj, nat>, s: State, t: Tid, i: nat) returns (k: nat)
    requires Inv(l, orig, s) && t in s.threads && i < |s.threads[t].recs|
    ensures k <= i && IsOuter(s.threads[t].recs, k)
    ensures var o := s.threads[t].recs[i].obj;
            s.threads[t].recs[k].obj == o && o in s.header && s.header[o] == s.threads[t].recs[k].slot && l.InStack(t, s.header[o])
  {
    k := OuterExists(s.threads[t].recs, i);
    assert RecsOk(l, orig, s, t);
    assert RecOk(l, orig, s, t, s.threads[t], k);
  }

  lemma Exclusive(l: Layout, orig: map<Obj, nat>, s: State, t: Tid, u: Tid, o: Obj)
    requires Inv(l, orig, s) && t in s.threads && u in s.threads
    requires Holds(s.threads[t], o) && Holds(s.threads[u], o)
    ensures t == u
  {
    var i :| 0 <= i < |s.threads[t].recs| && s.threads[t].recs[i].obj == o;
    var j :| 0 <= j < |s.threads[u].recs| && s.threads[u].recs[j].obj == o;
    var k := HolderSlot(l, orig, s, t, i);
    var m := HolderSlot(l, orig, s, u, j);
    SlotsApart(l, t, u, s.header[o]);
  }

  lemma HeldHeaderAligned(l: Layout, orig: map<Obj, nat>, s: State, t: Tid, o: Obj)
    requires Inv(l, orig, s) && t in s.threads && Holds(s.threads[t], o)
    ensures o in s.header && s.header[o] % 8 == 0
  {
    var i :| 0 <= i < |s.threads[t].recs| && s.threads[t].recs[i].obj == o;
    var k := HolderSlot(l, orig, s, t, i);
  }

  /** A header with its low bit set is the original one, and nobody holds the object. */
  lemma UnlockedHeader(l: Layout, orig: map<Obj, nat>, s: State, o: Obj)
    requires Inv(l, orig, s) && o in s.header && s.header[o] % 2 == 1
    ensures s.header[o] == orig[o]
    ensures forall t :: t in s.threads ==> !Holds(s.threads[t], o)
  {
    forall t | t in s.threads
      ensures !Holds(s.threads[t], o)
    {
      if Holds(s.threads[t], o) {
        HeldHeaderAligned(l, orig, s, t, o);
      }
    }
    assert !Owned(s, o);
  }
}
