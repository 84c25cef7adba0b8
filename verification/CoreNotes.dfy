/** The ELF note segment of a core file: `core_handle_note` and the thread list it builds. */
module CoreNotes {
  import opened Octets

  const WORD32: nat := 0x1_0000_0000
  const NHDR_SIZE: nat := 12
  const NT_PRSTATUS: nat := 1

  function Le32(buf: seq<byte>, p: nat): (v: nat)
    requires p + 4 <= |buf|
    ensures v < WORD32
  {
    buf[p] as nat + 0x100 * buf[p + 1] as nat + 0x1_0000 * buf[p + 2] as nat + 0x100_0000 * buf[p + 3] as nat
  }

  /** ROUNDUP(x, 4) in 32-bit unsigned arithmetic. */
  function RoundUp4(x: nat): nat { (x + 3) % WORD32 / 4 * 4 }

  /** The next multiple of four, without wrap-around. */
  function Up4(x: nat): (r: nat)
    ensures x <= r < x + 4 && r % 4 == 0
  {
    (x + 3) / 4 * 4
  }

  /** The rounding is the next multiple of four exactly up to 0xFFFFFFFC; above that it wraps to 0. */
  lemma RoundUpExact(x: nat)
    requires x < WORD32
    ensures RoundUp4(x) == Up4(x) <==> x <= WORD32 - 4
    ensures x > WORD32 - 4 ==> RoundUp4(x) == 0
  {
  }

  // ---------- notes and their layout ----------

  datatype Note = Note(name: seq<byte>, kind: nat, desc: seq<byte>)

  /** A thread of the dumped process: its id and its saved registers. */
  datatype ThreadInfo = ThreadInfo(lwp: nat, regs: seq<byte>)

  /** Where the platform's prstatus_t keeps the process id and the registers. */
  datatype PrStatus = PrStatus(pidOffset: nat, regsOffset: nat, regsSize: nat) {
    predicate Fits(desc: seq<byte>) { pidOffset + 4 <= |desc| && regsOffset + regsSize <= |desc| }

    function Parse(desc: seq<byte>): ThreadInfo
      requires Fits(desc)
    {
      ThreadInfo(Le32(desc, pidOffset), desc[regsOffset..regsOffset + regsSize])
    }
  }

  /** The entry holds the id at pidOffset, in little-endian order, and the registers at regsOffset, byte by byte. */
  ghost predicate Describes(l: PrStatus, t: ThreadInfo, desc: seq<byte>) {
    && l.pidOffset + 4 <= |desc| && l.regsOffset + l.regsSize <= |desc|
    && |t.regs| == l.regsSize && (forall i :: 0 <= i < l.regsSize ==> t.regs[i] == desc[l.regsOffset + i])
    && t.lwp == desc[l.pidOffset] as nat + 0x100 * desc[l.pidOffset + 1] as nat
                + 0x1_0000 * desc[l.pidOffset + 2] as nat + 0x100_0000 * desc[l.pidOffset + 3] as nat
  }

  lemma ParseDescribes(l: PrStatus, desc: seq<byte>)
    requires l.Fits(desc)
    ensures Describes(l, l.Parse(desc), desc)
  {
  }

  ghost predicate ValidNote(l: PrStatus, n: Note) {
    && |n.name| <= WORD32 - 4 && |n.desc| <= WORD32 - 4 && n.kind < WORD32
    && (n.kind == NT_PRSTATUS ==> l.Fits(n.desc))
  }

  function NoteSize(n: Note): nat { NHDR_SIZE + Up4(|n.name|) + Up4(|n.desc|) }

  function DescStart(p: nat, n: Note): nat { p + NHDR_SIZE + Up4(|n.name|) }

  /** The note starts at p: its header words and its descriptor are in place; padding is arbitrary. */
  ghost predicate NoteAt(buf: seq<byte>, p: nat, n: Note) {
    && p + NoteSize(n) <= |buf|
    && Le32(buf, p) == |n.name| && Le32(buf, p + 4) == |n.desc| && Le32(buf, p + 8) == n.kind
    && buf[DescStart(p, n)..DescStart(p, n) + |n.desc|] == n.desc
  }

  /** The rest of the buffer, from p on, is exactly the given notes one after another. */
  ghost predicate LaidOut(l: PrStatus, buf: seq<byte>, p: nat, notes: seq<Note>)
    decreases |notes|
  {
    if notes == [] then p == |buf|
    else ValidNote(l, notes[0]) && NoteAt(buf, p, notes[0]) && LaidOut(l, buf, p + NoteSize(notes[0]), notes[1..])
  }

  /** The threads the notes describe, in file order, after those in `acc`. */
  ghost function Threads(l: PrStatus, notes: seq<Note>, acc: seq<ThreadInfo>): seq<ThreadInfo>
    decreases |notes|
  {
    if notes == [] then acc
    else if notes[0].kind == NT_PRSTATUS && l.Fits(notes[0].desc) then Threads(l, notes[1..], acc + [l.Parse(notes[0].desc)])
    else Threads(l, notes[1..], acc)
  }

  lemma {:induction false} ThreadsExtend(l: PrStatus, notes: seq<Note>, acc: seq<ThreadInfo>)
    ensures |acc| <= |Threads(l, notes, acc)| && Threads(l, notes, acc)[..|acc|] == acc
    decreases |notes|
  {
    if notes != [] {
      if notes[0].kind == NT_PRSTATUS && l.Fits(notes[0].desc) {
        var acc' := acc + [l.Parse(notes[0].desc)];
        ThreadsExtend(l, notes[1..], acc');
        assert Threads(l, notes[1..], acc')[..|acc|] == Threads(l, notes[1..], acc')[..|acc'|][..|acc|] == acc;
      } else {
        ThreadsExtend(l, notes[1..], acc);
      }
    }
  }

  /** The notes a thread comes from. */
  function PrNotes(l: PrStatus, notes: seq<Note>): seq<Note> {
    if notes == [] then []
    else (if notes[0].kind == NT_PRSTATUS && l.Fits(notes[0].desc) then [notes[0]] else []) + PrNotes(l, notes[1..])
  }

  /** These are all the prstatus notes that are long enough, and no others, in order. */
  lemma {:induction false} PrNotesSplit(l: PrStatus, a: seq<Note>, n: Note, b: seq<Note>)
    ensures PrNotes(l, a + [n] + b) == PrNotes(l, a) + (if n.kind == 1 && l.Fits(n.desc) then [n] else []) + PrNotes(l, b)
    decreases |a|
  {
    if a == [] {
      assert (a + [n] + b)[1..] == b;
    } else {
      PrNotesSplit(l, a[1..], n, b);
      assert (a + [n] + b)[1..] == a[1..] + [n] + b;
    }
  }

  /** The threads are exactly the prstatus notes, one for one and in order. */
  lemma {:induction false} ThreadsExact(l: PrStatus, notes: seq<Note>, acc: seq<ThreadInfo>)
    ensures |Threads(l, notes, acc)| == |acc| + |PrNotes(l, notes)|
    ensures forall k :: 0 <= k < |PrNotes(l, notes)| ==> Describes(l, Threads(l, notes, acc)[|acc| + k], PrNotes(l, notes)[k].desc)
    decreases |notes|
  {
    if notes != [] {
      if notes[0].kind == NT_PRSTATUS && l.Fits(notes[0].desc) {
        var acc' := acc + [l.Parse(notes[0].desc)];
        ThreadsExact(l, notes[1..], acc');
        ThreadsExtend(l, notes[1..], acc');
        var ps, rest := PrNotes(l, notes), PrNotes(l, notes[1..]);
        assert Threads(l, notes, acc)[..|acc'|][|acc|] == l.Parse(notes[0].desc);
        ParseDescribes(l, notes[0].desc);
        forall k | 0 <= k < |ps|
          ensures Describes(l, Threads(l, notes, acc)[|acc| + k], ps[k].desc)
        {
          if k > 0 {
            assert ps[k] == rest[k - 1];
            assert Describes(l, Threads(l, notes[1..], acc')[|acc'| + (k - 1)], rest[k - 1].desc);
          }
        }
      } else {
        ThreadsExact(l, notes[1..], acc);
        assert PrNotes(l, notes) == PrNotes(l, notes[1..]);
      }
    }
  }

  function Reverse(s: seq<ThreadInfo>): (r: seq<ThreadInfo>)
    ensures |r| == |s|
  {
    if s == [] then [] else Reverse(s[1..]) + [s[0]]
  }

  lemma {:induction false} ReverseAt(s: seq<ThreadInfo>, k: nat)
    requires k < |s|
    ensures Reverse(s)[k] == s[|s| - 1 - k]
  {
    if k < |s| - 1 {
      ReverseAt(s[1..], k);
    }
  }

  // ---------- the walk, on any buffer ----------

  /** `Overrun`: the code, which does not check, would read outside the buffer. */
  datatype Outcome = Done | OutOfMemory | Overrun

  /** How a walk ends and the threads it adds, in file order. */
  datatype Walked = Walked(outcome: Outcome, added: seq<ThreadInfo>)

  function DescAt(buf: seq<byte>, p: nat): nat
    requires p + NHDR_SIZE <= |buf|
  {
    p + NHDR_SIZE + RoundUp4(Le32(buf, p))
  }

  /** Where the next note begins. */
  function NextAt(buf: seq<byte>, p: nat): (n: nat)
    requires p + NHDR_SIZE <= |buf|
    ensures n >= p + NHDR_SIZE
  {
    DescAt(buf, p) + RoundUp4(Le32(buf, p + 4))
  }

  predicate IsPrStatus(buf: seq<byte>, p: nat)
    requires p + NHDR_SIZE <= |buf|
  {
    Le32(buf, p + 8) == NT_PRSTATUS
  }

  /** The walk from p on: the process id is read before the allocation and the registers after it. */
  function Walk(l: PrStatus, buf: seq<byte>, p: nat, memory: nat): Walked
    decreases if p < |buf| then |buf| - p else 0
  {
    if p >= |buf| then Walked(Done, [])
    else if p + NHDR_SIZE > |buf| then Walked(Overrun, [])
    else if !IsPrStatus(buf, p) then Walk(l, buf, NextAt(buf, p), memory)
    else if DescAt(buf, p) + l.pidOffset + 4 > |buf| then Walked(Overrun, [])
    else if memory == 0 then Walked(OutOfMemory, [])
    else if DescAt(buf, p) + l.regsOffset + l.regsSize > |buf| then Walked(Overrun, [])
    else
      var rest := Walk(l, buf, NextAt(buf, p), memory - 1);
      rest.(added := [l.Parse(buf[DescAt(buf, p)..])] + rest.added)
  }

  class ProcHandle {
    var threads: seq<ThreadInfo>   // the thread list, head first
    var numThreads: nat
    var memory: nat                // how many more thread_info allocations succeed

    ghost predicate Valid()
      reads this
    {
      numThreads == |threads|
    }

    method AddThreadInfo(t: ThreadInfo) returns (ok: bool)
      requires Valid()
      modifies this
      ensures Valid() && ok == (old(memory) > 0)
      ensures if ok then threads == [t] + old(threads) && memory == old(memory) - 1
              else threads == old(threads) && memory == old(memory)
    {
      if memory == 0 {
        return false;
      }
      memory := memory - 1;
      threads := [t] + threads;
      numThreads := numThreads + 1;
      return true;
    }

    /** The loop body for the note at p: `r` is Done when the walk goes on. */
    method VisitNote(l: PrStatus, buf: seq<byte>, p: nat) returns (r: Outcome, next: nat)
      requires Valid() && p < |buf|
      modifies this
      ensures Valid() && Visited(l, buf, p, old(memory), r, next)
      ensures r == Done && p + NHDR_SIZE <= |buf| && IsPrStatus(buf, p) ==>
                threads == [l.Parse(buf[DescAt(buf, p)..])] + old(threads) && memory == old(memory) - 1
      ensures !(r == Done && p + NHDR_SIZE <= |buf| && IsPrStatus(buf, p)) ==> threads == old(threads) && memory == old(memory)
    {
      next := p;
      if p + NHDR_SIZE > |buf| {
        return Overrun, next;
      }
      var namesz, descsz, kind := Le32(buf, p), Le32(buf, p + 4), Le32(buf, p + 8);
      var descdata := p + NHDR_SIZE + RoundUp4(namesz);
      if kind == NT_PRSTATUS {
        if descdata + l.pidOffset + 4 > |buf| {
          return Overrun, next;
        }
        if memory > 0 && descdata + l.regsOffset + l.regsSize > |buf| {
          return Overrun, next;
        }
        var ok := false;
        if descdata + l.regsOffset + l.regsSize <= |buf| {
          ok := AddThreadInfo(l.Parse(buf[descdata..]));
        }
        if !ok {
          return OutOfMemory, next;
        }
      }
      next := descdata + RoundUp4(descsz);
      r := Done;
    }

    /** Reads every note once, whatever the buffer holds, in at most one round per header that fits in it. The threads
        added end up at the front of the list in reverse file order. */
    method WalkNotes(l: PrStatus, buf: seq<byte>) returns (r: Outcome, ghost rounds: nat)
      requires Valid()
      modifies this
      ensures Valid() && NHDR_SIZE * rounds <= |buf|
      ensures var w := Walk(l, buf, 0, old(memory));
              r == w.outcome && threads == Reverse(w.added) + old(threads) && memory + |w.added| == old(memory)
    {
      var p := 0;
      ghost var added, all := [], Walk(l, buf, 0, memory);
      rounds := 0;
      while p < |buf|
        invariant Valid() && NHDR_SIZE * rounds <= p && NHDR_SIZE * rounds <= |buf|
        invariant all == After(added, Walk(l, buf, p, memory))
        invariant threads == Reverse(added) + old(threads) && memory + |added| == old(memory)
        decreases if p < |buf| then |buf| - p else 0
      {
        var next;
        r, next, added := WalkOne(l, buf, p, all, added, old(threads));
        if r != Done {
          return;
        }
        p, rounds := next, rounds + 1;
      }
      return Done, rounds;
    }

    /** One round: the note at p is passed over, added, or ends the walk. */
    method WalkOne(l: PrStatus, buf: seq<byte>, p: nat, ghost all: Walked, ghost added: seq<ThreadInfo>, ghost tail: seq<ThreadInfo>)
      returns (r: Outcome, next: nat, ghost more: seq<ThreadInfo>)
      requires Valid() && p < |buf| && all == After(added, Walk(l, buf, p, memory)) && threads == Reverse(added) + tail
      modifies this
      ensures Valid() && threads == Reverse(more) + tail && memory + |more| == old(memory) + |added|
      ensures r != Done ==> all == Walked(r, more)
      ensures r == Done ==> p + NHDR_SIZE <= |buf| && p + NHDR_SIZE <= next && all == After(more, Walk(l, buf, next, memory))
    {
      ghost var before := memory;
      r, next := VisitNote(l, buf, p);
      WalkStep(l, buf, p, before, r, next);
      more := added;
      if r == Done && IsPrStatus(buf, p) {
        ghost var t := l.Parse(buf[DescAt(buf, p)..]);
        PrependNext(added, t, tail);
        AfterNext(added, t, Walk(l, buf, next, memory));
        more := added + [t];
      }
    }

    /** `core_handle_note` after the buffer is read. For a buffer of valid notes the threads are those of its prstatus
        notes; an allocation failure stops the walk after the entries already added. */
    method CoreHandleNote(l: PrStatus, buf: seq<byte>) returns (r: Outcome, ghost rounds: nat)
      requires Valid()
      modifies this
      ensures Valid() && NHDR_SIZE * rounds <= |buf|
      ensures var w := Walk(l, buf, 0, old(memory));
              && r == w.outcome && memory + |w.added| == old(memory) && threads == Reverse(w.added) + old(threads)
              && forall k :: 0 <= k < |w.added| ==> threads[k] == w.added[|w.added| - 1 - k]
      ensures forall notes :: LaidOut(l, buf, 0, notes) ==>
                var found := Threads(l, notes, []);
                && r == (if |found| <= old(memory) then Done else OutOfMemory)
                && threads == Reverse(if |found| <= old(memory) then found else found[..old(memory)]) + old(threads)
      ensures forall notes :: LaidOut(l, buf, 0, notes) ==>
                (r == Done <==> |PrNotes(l, notes)| <= old(memory)) && Listed(l, notes, old(memory), old(threads), threads)
    {
      r, rounds := WalkNotes(l, buf);
      ghost var w := Walk(l, buf, 0, old(memory));
      forall k | 0 <= k < |w.added|
        ensures threads[k] == w.added[|w.added| - 1 - k]
      {
        ReverseAt(w.added, k);
      }
      forall notes | LaidOut(l, buf, 0, notes)
        ensures w == Expected(Threads(l, notes, []), old(memory))
      {
        LaidOutWalk(l, buf, 0, notes, old(memory));
      }
      forall notes | LaidOut(l, buf, 0, notes)
        ensures (r == Done <==> |PrNotes(l, notes)| <= old(memory)) && Listed(l, notes, old(memory), old(threads), threads)
      {
        FoundListed(l, notes, old(memory), old(threads), threads);
      }
    }
  }

  /** As many of the prstatus notes as there is memory for are described at the front of the list, last one first. */
  ghost predicate Listed(l: PrStatus, notes: seq<Note>, memory: nat, before: seq<ThreadInfo>, after: seq<ThreadInfo>) {
    var n := if |PrNotes(l, notes)| <= memory then |PrNotes(l, notes)| else memory;
    && |after| == n + |before| && after[n..] == before
    && forall k :: 0 <= k < n ==> Describes(l, after[k], PrNotes(l, notes)[n - 1 - k].desc)
  }

  lemma FoundListed(l: PrStatus, notes: seq<Note>, memory: nat, before: seq<ThreadInfo>, after: seq<ThreadInfo>)
    requires var found := Threads(l, notes, []);
             after == Reverse(if |found| <= memory then found else found[..memory]) + before
    ensures |Threads(l, notes, [])| == |PrNotes(l, notes)| && Listed(l, notes, memory, before, after)
  {
    ThreadsExact(l, notes, []);
    var found := Threads(l, notes, []);
    var added := if |found| <= memory then found else found[..memory];
    forall k | 0 <= k < |added|
      ensures Describes(l, after[k], PrNotes(l, notes)[|added| - 1 - k].desc)
    {
      ReverseAt(added, k);
      assert after[k] == found[|added| - 1 - k];
      assert Describes(l, found[0 + (|added| - 1 - k)], PrNotes(l, notes)[|added| - 1 - k].desc);
    }
  }

  /** What a walk adds behind the threads added before it. */
  function After(added: seq<ThreadInfo>, w: Walked): (r: Walked)
    ensures w.added == [] ==> r == Walked(w.outcome, added)
  {
    w.(added := added + w.added)
  }

  lemma AfterNext(added: seq<ThreadInfo>, t: ThreadInfo, w: Walked)
    ensures After(added, w.(added := [t] + w.added)) == After(added + [t], w)
  {
    assert added + ([t] + w.added) == added + [t] + w.added;
  }

  /** One round of the walk. */
  predicate Visited(l: PrStatus, buf: seq<byte>, p: nat, memory: nat, r: Outcome, next: nat)
    requires p < |buf|
  {
    if p + NHDR_SIZE > |buf| then r == Overrun
    else if !IsPrStatus(buf, p) then r == Done && next == NextAt(buf, p)
    else if DescAt(buf, p) + l.pidOffset + 4 > |buf| then r == Overrun
    else if memory == 0 then r == OutOfMemory
    else if DescAt(buf, p) + l.regsOffset + l.regsSize > |buf| then r == Overrun
    else r == Done && next == NextAt(buf, p)
  }

  lemma WalkStep(l: PrStatus, buf: seq<byte>, p: nat, memory: nat, r: Outcome, next: nat)
    requires p < |buf| && Visited(l, buf, p, memory, r, next)
    ensures r != Done ==> Walk(l, buf, p, memory) == Walked(r, [])
    ensures r == Done ==> p + NHDR_SIZE <= |buf| && next >= p + NHDR_SIZE
    ensures r == Done && !IsPrStatus(buf, p) ==> Walk(l, buf, p, memory) == Walk(l, buf, next, memory)
    ensures r == Done && IsPrStatus(buf, p) ==>
              && memory > 0 && DescAt(buf, p) <= |buf| && l.Fits(buf[DescAt(buf, p)..])
              && var rest := Walk(l, buf, next, memory - 1);
              Walk(l, buf, p, memory) == rest.(added := [l.Parse(buf[DescAt(buf, p)..])] + rest.added)
  {
  }

  /** The entries are those of the prstatus headers at the positions qs from p on, in order. */
  ghost predicate Positions(l: PrStatus, buf: seq<byte>, p: nat, qs: seq<nat>, added: seq<ThreadInfo>) {
    && |qs| == |added|
    && (forall i :: 0 <= i < |qs| ==> p <= qs[i] && AddedAt(l, buf, qs[i], added[i]))
    && (forall i, j :: 0 <= i < j < |qs| ==> qs[i] < qs[j])
  }

  lemma OnePosition(l: PrStatus, buf: seq<byte>, p: nat, next: nat, t: ThreadInfo, qs: seq<nat>, added: seq<ThreadInfo>)
    requires Positions(l, buf, next, qs, added) && AddedAt(l, buf, p, t) && p < next
    ensures Positions(l, buf, p, [p] + qs, [t] + added)
  {
  }

  /** On any buffer, the threads added are those of prstatus headers in it. */
  lemma {:induction false} WalkAdded(l: PrStatus, buf: seq<byte>, p: nat, memory: nat) returns (qs: seq<nat>)
    ensures Positions(l, buf, p, qs, Walk(l, buf, p, memory).added)
    decreases if p < |buf| then |buf| - p else 0
  {
    qs := [];
    if p < |buf| && p + NHDR_SIZE <= |buf| {
      var next := NextAt(buf, p);
      if !IsPrStatus(buf, p) {
        qs := WalkAdded(l, buf, next, memory);
      } else if Walk(l, buf, p, memory).added != [] {
        qs := WalkAdded(l, buf, next, memory - 1);
        ParseDescribes(l, buf[DescAt(buf, p)..]);
        OnePosition(l, buf, p, next, l.Parse(buf[DescAt(buf, p)..]), qs, Walk(l, buf, next, memory - 1).added);
        qs := [p] + qs;
      }
    }
  }

  ghost predicate AddedAt(l: PrStatus, buf: seq<byte>, q: nat, t: ThreadInfo) {
    && q + NHDR_SIZE <= |buf| && IsPrStatus(buf, q) && DescAt(buf, q) <= |buf| && Describes(l, t, buf[DescAt(buf, q)..])
  }

  // ---------- buffers of valid notes ----------

  /** What a walk over these threads gives: all of them, or as many as there is memory for. */
  function Expected(found: seq<ThreadInfo>, memory: nat): Walked {
    if |found| <= memory then Walked(Done, found) else Walked(OutOfMemory, found[..memory])
  }

  lemma {:induction false} ThreadsAfter(l: PrStatus, notes: seq<Note>, acc: seq<ThreadInfo>)
    ensures Threads(l, notes, acc) == acc + Threads(l, notes, [])
    decreases |notes|
  {
    if notes != [] && notes[0].kind == NT_PRSTATUS && l.Fits(notes[0].desc) {
      var t := l.Parse(notes[0].desc);
      ThreadsAfter(l, notes[1..], acc + [t]);
      ThreadsAfter(l, notes[1..], [t]);
      assert [] + [t] == [t];
    } else if notes != [] {
      ThreadsAfter(l, notes[1..], acc);
    }
  }

  lemma NoteAtReads(l: PrStatus, buf: seq<byte>, p: nat, n: Note)
    requires ValidNote(l, n) && NoteAt(buf, p, n)
    ensures p + NHDR_SIZE <= |buf| && DescAt(buf, p) == DescStart(p, n) && NextAt(buf, p) == p + NoteSize(n)
    ensures IsPrStatus(buf, p) <==> n.kind == NT_PRSTATUS
    ensures DescAt(buf, p) + |n.desc| <= |buf|
  {
    RoundUpExact(|n.name|);
    RoundUpExact(|n.desc|);
  }

  /** The registers and the id are read from the descriptor. */
  lemma ParseAt(l: PrStatus, buf: seq<byte>, d: nat, desc: seq<byte>)
    requires d + |desc| <= |buf| && buf[d..d + |desc|] == desc && l.Fits(desc)
    ensures l.Fits(buf[d..]) && l.Parse(buf[d..]) == l.Parse(desc)
  {
    var tail := buf[d..];
    assert forall i :: 0 <= i < |desc| ==> desc[i] == buf[d..d + |desc|][i] == tail[i];
    assert tail[l.regsOffset..l.regsOffset + l.regsSize] == desc[l.regsOffset..l.regsOffset + l.regsSize];
  }

  /** The walk from a valid note on. */
  lemma {:induction false} WalkNote(l: PrStatus, buf: seq<byte>, p: nat, n: Note, memory: nat)
    requires ValidNote(l, n) && NoteAt(buf, p, n)
    ensures n.kind != NT_PRSTATUS ==> Walk(l, buf, p, memory) == Walk(l, buf, p + NoteSize(n), memory)
    ensures n.kind == NT_PRSTATUS && memory == 0 ==> Walk(l, buf, p, memory) == Walked(OutOfMemory, [])
    ensures n.kind == NT_PRSTATUS && memory > 0 ==>
              var rest := Walk(l, buf, p + NoteSize(n), memory - 1);
              Walk(l, buf, p, memory) == rest.(added := [l.Parse(n.desc)] + rest.added)
  {
    NoteAtReads(l, buf, p, n);
    if n.kind == NT_PRSTATUS {
      ParseAt(l, buf, DescAt(buf, p), n.desc);
    }
  }

  lemma {:induction false} LaidOutWalk(l: PrStatus, buf: seq<byte>, p: nat, notes: seq<Note>, memory: nat)
    requires LaidOut(l, buf, p, notes)
    ensures Walk(l, buf, p, memory) == Expected(Threads(l, notes, []), memory)
    decreases |notes|
  {
    if notes != [] {
      var n := notes[0];
      if n.kind != NT_PRSTATUS {
        LaidOutWalk(l, buf, p + NoteSize(n), notes[1..], memory);
        WalkNote(l, buf, p, n, memory);
      } else if memory > 0 {
        LaidOutWalk(l, buf, p + NoteSize(n), notes[1..], memory - 1);
        TakeIn(l, buf, p, n, Threads(l, notes[1..], []), memory);
        ThreadsCons(l, notes);
      } else {
        WalkNote(l, buf, p, n, 0);
        ThreadsCons(l, notes);
      }
    }
  }

  lemma {:induction false} TakeIn(l: PrStatus, buf: seq<byte>, p: nat, n: Note, found: seq<ThreadInfo>, memory: nat)
    requires ValidNote(l, n) && NoteAt(buf, p, n) && n.kind == NT_PRSTATUS && memory > 0
    requires Walk(l, buf, p + NoteSize(n), memory - 1) == Expected(found, memory - 1)
    ensures Walk(l, buf, p, memory) == Expected([l.Parse(n.desc)] + found, memory)
  {
    WalkNote(l, buf, p, n, memory);
    ExpectedCons(l.Parse(n.desc), found, memory);
  }

  lemma ThreadsCons(l: PrStatus, notes: seq<Note>)
    requires notes != [] && ValidNote(l, notes[0])
    ensures Threads(l, notes, [])
            == (if notes[0].kind == NT_PRSTATUS then [l.Parse(notes[0].desc)] else []) + Threads(l, notes[1..], [])
  {
    if notes[0].kind == NT_PRSTATUS {
      var t := l.Parse(notes[0].desc);
      ThreadsAfter(l, notes[1..], [t]);
      assert [] + [t] == [t];
    }
  }

  lemma ExpectedCons(t: ThreadInfo, found: seq<ThreadInfo>, memory: nat)
    requires memory > 0
    ensures var rest := Expected(found, memory - 1); Expected([t] + found, memory) == rest.(added := [t] + rest.added)
  {
  }

  // ---------- when the walk stays inside the buffer ----------

  /** The positions ps are a chain of notes from p: each header lies inside the buffer, as does what is read of a prstatus
      descriptor, each note begins where the one before it ends, and the last one ends at or after the end. */
  ghost predicate Chain(l: PrStatus, buf: seq<byte>, p: nat, ps: seq<nat>)
    decreases |ps|
  {
    if ps == [] then p >= |buf|
    else && ps[0] == p < |buf| && p + NHDR_SIZE <= |buf| && InBounds(l, buf, p) && Chain(l, buf, NextAt(buf, p), ps[1..])
  }

  ghost predicate IsChain(l: PrStatus, buf: seq<byte>, p: nat) { exists ps :: Chain(l, buf, p, ps) }

  predicate InBounds(l: PrStatus, buf: seq<byte>, p: nat)
    requires p + NHDR_SIZE <= |buf|
  {
    IsPrStatus(buf, p) ==> DescAt(buf, p) + l.pidOffset + 4 <= |buf| && DescAt(buf, p) + l.regsOffset + l.regsSize <= |buf|
  }

  lemma {:induction false} ChainLength(l: PrStatus, buf: seq<byte>, p: nat, ps: seq<nat>)
    requires Chain(l, buf, p, ps)
    ensures ps == [] || p + NHDR_SIZE * |ps| <= |buf|
    decreases |ps|
  {
    if |ps| > 1 {
      ChainLength(l, buf, NextAt(buf, p), ps[1..]);
    }
  }

  lemma {:induction false} ChainWalks(l: PrStatus, buf: seq<byte>, p: nat, ps: seq<nat>, memory: nat)
    requires Chain(l, buf, p, ps)
    ensures Walk(l, buf, p, memory).outcome != Overrun
    decreases |ps|
  {
    if ps != [] && IsPrStatus(buf, p) && memory > 0 {
      ChainWalks(l, buf, NextAt(buf, p), ps[1..], memory - 1);
    } else if ps != [] && !IsPrStatus(buf, p) {
      ChainWalks(l, buf, NextAt(buf, p), ps[1..], memory);
    }
  }

  lemma {:induction false} WalkChains(l: PrStatus, buf: seq<byte>, p: nat, memory: nat) returns (ps: seq<nat>)
    requires Walk(l, buf, p, memory).outcome == Done
    ensures Chain(l, buf, p, ps)
    decreases if p < |buf| then |buf| - p else 0
  {
    if p >= |buf| {
      ps := [];
    } else {
      var rest := WalkChains(l, buf, NextAt(buf, p), if IsPrStatus(buf, p) then memory - 1 else memory);
      ps := [p] + rest;
      assert ps[1..] == rest;
    }
  }

  /** Memory for one thread per header that fits is enough. */
  lemma {:induction false} EnoughMemory(l: PrStatus, buf: seq<byte>, p: nat, memory: nat)
    requires p < |buf| ==> p + NHDR_SIZE * (memory + 1) > |buf|
    ensures Walk(l, buf, p, memory).outcome != OutOfMemory
    decreases if p < |buf| then |buf| - p else 0
  {
    if p < |buf| && p + NHDR_SIZE <= |buf| {
      if !IsPrStatus(buf, p) {
        EnoughMemory(l, buf, NextAt(buf, p), memory);
      } else if memory > 0 {
        EnoughMemory(l, buf, NextAt(buf, p), memory - 1);
      }
    }
  }

  /** With enough memory the walk reads outside the buffer exactly when the buffer is not a chain of notes. */
  lemma OverrunIffNoChain(l: PrStatus, buf: seq<byte>, p: nat, memory: nat)
    requires p + NHDR_SIZE * (memory + 1) > |buf|
    ensures Walk(l, buf, p, memory).outcome == Overrun <==> !IsChain(l, buf, p)
  {
    EnoughMemory(l, buf, p, memory);
    if IsChain(l, buf, p) {
      var ps :| Chain(l, buf, p, ps);
      ChainWalks(l, buf, p, ps, memory);
    } else if Walk(l, buf, p, memory).outcome == Done {
      var ps := WalkChains(l, buf, p, memory);
    }
  }

  /** A chain need not be a list of whole notes: a last note whose descriptor is cut off goes unnoticed. */
  lemma CutNotePasses(l: PrStatus, memory: nat)
    ensures var buf: seq<byte> := [0, 0, 0, 0, 4, 0, 0, 0, 2, 0, 0, 0];
            Walk(l, buf, 0, memory) == Walked(Done, []) && forall notes :: !LaidOut(l, buf, 0, notes)
  {
    var buf: seq<byte> := [0, 0, 0, 0, 4, 0, 0, 0, 2, 0, 0, 0];
    assert Le32(buf, 0) == 0 && Le32(buf, 4) == 4 && Le32(buf, 8) == 2;
    assert Walk(l, buf, NextAt(buf, 0), memory) == Walked(Done, []);
    forall notes
      ensures !LaidOut(l, buf, 0, notes)
    {
      HeaderAlone(l, buf, notes);
    }
  }

  lemma HeaderAlone(l: PrStatus, buf: seq<byte>, notes: seq<Note>)
    requires |buf| == NHDR_SIZE && Le32(buf, 4) > 0
    ensures !LaidOut(l, buf, 0, notes)
  {
  }

  lemma PrependNext(added: seq<ThreadInfo>, t: ThreadInfo, tail: seq<ThreadInfo>)
    ensures [t] + (Reverse(added) + tail) == Reverse(added + [t]) + tail
  {
    ReverseLast(added, t);
  }

  lemma {:induction false} ReverseLast(s: seq<ThreadInfo>, t: ThreadInfo)
    ensures Reverse(s + [t]) == [t] + Reverse(s)
  {
    if s == [] {
      assert s + [t] == [t];
    } else {
      assert (s + [t])[1..] == s[1..] + [t];
      ReverseLast(s[1..], t);
    }
  }

  // ---------- serialisation ----------

  function Enc32(v: nat): (s: seq<byte>)
    requires v < WORD32
    ensures |s| == 4
  {
    [(v % 0x100) as byte, (v / 0x100 % 0x100) as byte, (v / 0x1_0000 % 0x100) as byte, (v / 0x100_0000) as byte]
  }

  function Padded(s: seq<byte>): (r: seq<byte>)
    ensures |r| == Up4(|s|) && r[..|s|] == s
  {
    s + seq(Up4(|s|) - |s|, _ => 0)
  }

  function Header(n: Note): (s: seq<byte>)
    requires |n.name| < WORD32 && |n.desc| < WORD32 && n.kind < WORD32
    ensures |s| == NHDR_SIZE
  {
    Enc32(|n.name|) + Enc32(|n.desc|) + Enc32(n.kind)
  }

  function EncodeNote(n: Note): (s: seq<byte>)
    requires |n.name| < WORD32 && |n.desc| < WORD32 && n.kind < WORD32
    ensures |s| == NoteSize(n)
  {
    Header(n) + Padded(n.name) + Padded(n.desc)
  }

  ghost function Encode(l: PrStatus, notes: seq<Note>): seq<byte>
    requires forall n :: n in notes ==> ValidNote(l, n)
  {
    if notes == [] then [] else assert ValidNote(l, notes[0]); EncodeNote(notes[0]) + Encode(l, notes[1..])
  }

  lemma EncodedWord(buf: seq<byte>, p: nat, v: nat)
    requires v < WORD32 && p + 4 <= |buf| && buf[p..p + 4] == Enc32(v)
    ensures Le32(buf, p) == v
  {
    assert buf[p] == buf[p..p + 4][0] && buf[p + 1] == buf[p..p + 4][1];
    assert buf[p + 2] == buf[p..p + 4][2] && buf[p + 3] == buf[p..p + 4][3];
    Digits(v);
  }

  lemma Digits(v: nat)
    ensures v % 0x100 + 0x100 * (v / 0x100 % 0x100) + 0x1_0000 * (v / 0x1_0000 % 0x100) + 0x100_0000 * (v / 0x100_0000) == v
  {
    var a := v / 0x100;
    var b := a / 0x100;
    assert b == v / 0x1_0000 && b / 0x100 == v / 0x100_0000;
  }

  lemma SliceOfSlice(buf: seq<byte>, p: nat, n: nat, i: nat, j: nat)
    requires i <= j <= n && p + n <= |buf|
    ensures buf[p..p + n][i..j] == buf[p + i..p + j]
  {
    var a, b := buf[p..p + n][i..j], buf[p + i..p + j];
    assert |a| == |b|;
    forall k | 0 <= k < |a|
      ensures a[k] == b[k]
    {
      assert a[k] == buf[p..p + n][i + k] == buf[p + (i + k)];
    }
  }

  lemma HeaderWords(buf: seq<byte>, p: nat, n: Note)
    requires |n.name| < WORD32 && |n.desc| < WORD32 && n.kind < WORD32
    requires p + NHDR_SIZE <= |buf| && buf[p..p + NHDR_SIZE] == Header(n)
    ensures Le32(buf, p) == |n.name| && Le32(buf, p + 4) == |n.desc| && Le32(buf, p + 8) == n.kind
  {
    var h := Header(n);
    assert h[0..4] == Enc32(|n.name|) && h[4..8] == Enc32(|n.desc|) && h[8..12] == Enc32(n.kind);
    SliceOfSlice(buf, p, NHDR_SIZE, 0, 4);
    SliceOfSlice(buf, p, NHDR_SIZE, 4, 8);
    SliceOfSlice(buf, p, NHDR_SIZE, 8, 12);
    EncodedWord(buf, p, |n.name|);
    EncodedWord(buf, p + 4, |n.desc|);
    EncodedWord(buf, p + 8, n.kind);
  }

  lemma EncodedNoteAt(prefix: seq<byte>, n: Note, suffix: seq<byte>)
    requires |n.name| < WORD32 && |n.desc| < WORD32 && n.kind < WORD32
    ensures NoteAt(prefix + EncodeNote(n) + suffix, |prefix|, n)
  {
    var buf := prefix + EncodeNote(n) + suffix;
    var p, d := |prefix|, DescStart(|prefix|, n);
    assert buf[p..p + NHDR_SIZE] == Header(n);
    HeaderWords(buf, p, n);
    assert buf[d..d + |n.desc|] == Padded(n.desc)[..|n.desc|];
  }

  /** Serialised notes are laid out one after another, so the walk recovers every one of them. */
  lemma {:induction false} EncodeIsLaidOut(l: PrStatus, prefix: seq<byte>, notes: seq<Note>)
    requires forall n :: n in notes ==> ValidNote(l, n)
    ensures LaidOut(l, prefix + Encode(l, notes), |prefix|, notes)
    decreases |notes|
  {
    if notes != [] {
      assert notes[0] in notes;
      var e, rest := EncodeNote(notes[0]), Encode(l, notes[1..]);
      EncodeIsLaidOut(l, prefix + e, notes[1..]);
      EncodedNoteAt(prefix, notes[0], rest);
      LaidOutCons(l, prefix + e + rest, |prefix|, |prefix + e|, notes);
      Joined(prefix, e, rest);
    }
  }

  lemma Joined(a: seq<byte>, b: seq<byte>, c: seq<byte>)
    ensures a + (b + c) == a + b + c
  {
  }

  lemma {:induction false} LaidOutCons(l: PrStatus, buf: seq<byte>, p: nat, next: nat, notes: seq<Note>)
    requires notes != [] && ValidNote(l, notes[0]) && NoteAt(buf, p, notes[0]) && next == p + NoteSize(notes[0])
    requires LaidOut(l, buf, next, notes[1..])
    ensures LaidOut(l, buf, p, notes)
  {
  }
}
