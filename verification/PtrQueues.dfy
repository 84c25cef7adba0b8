/** Per-thread G1 queues: the barrier fast path, the runtime's slow path and the in-place SATB filter. */
module PtrQueues {

  const OOP_SIZE: nat := 8

  /** A buffer is filled from its top down, so its oldest entry is its last. */
  function OldestFirst(s: seq<nat>): (r: seq<nat>)
    ensures |r| == |s|
  {
    seq(|s|, i requires 0 <= i < |s| => s[|s| - 1 - i])
  }

  function Keep(p: nat -> bool, s: seq<nat>): seq<nat> {
    if s == [] then []
    else Keep(p, s[..|s| - 1]) + if p(s[|s| - 1]) then [s[|s| - 1]] else []
  }

  lemma KeepSnoc(p: nat -> bool, s: seq<nat>, x: nat)
    ensures Keep(p, s + [x]) == Keep(p, s) + if p(x) then [x] else []
  {
    assert (s + [x])[..|s|] == s;
  }

  lemma {:induction false} KeepConcat(p: nat -> bool, a: seq<nat>, b: seq<nat>)
    ensures Keep(p, a + b) == Keep(p, a) + Keep(p, b)
  {
    if b == [] {
      assert a + b == a;
    } else {
      var x := b[|b| - 1];
      KeepConcat(p, a, b[..|b| - 1]);
      assert a + b == a + b[..|b| - 1] + [x];
      KeepSnoc(p, a + b[..|b| - 1], x);
    }
  }

  ghost predicate Implies(p: nat -> bool, q: nat -> bool) { forall x: nat :: p(x) ==> q(x) }

  /** Filtering by a weaker test first loses nothing. */
  lemma {:induction false} KeepTwice(p: nat -> bool, q: nat -> bool, s: seq<nat>)
    requires Implies(p, q)
    ensures Keep(p, Keep(q, s)) == Keep(p, s)
  {
    if s != [] {
      var t, x := s[..|s| - 1], s[|s| - 1];
      KeepTwice(p, q, t);
      if q(x) {
        KeepSnoc(p, Keep(q, t), x);
      } else {
        assert Keep(q, t) + [] == Keep(q, t);
      }
    }
  }

  lemma {:induction false} KeepAll(p: nat -> bool, s: seq<nat>)
    requires forall x: nat :: p(x)
    ensures Keep(p, s) == s
  {
    if s != [] {
      KeepAll(p, s[..|s| - 1]);
    }
  }

  /** A filter that drops nothing changes nothing. */
  lemma {:induction false} KeepLength(p: nat -> bool, s: seq<nat>)
    ensures |Keep(p, s)| <= |s|
    ensures |Keep(p, s)| == |s| ==> Keep(p, s) == s
  {
    if s != [] {
      KeepLength(p, s[..|s| - 1]);
      assert s == s[..|s| - 1] + [s[|s| - 1]];
    }
  }

  /** One more entry below the filled part is one more entry at the young end. */
  lemma OldestSnoc(s: seq<nat>, x: nat)
    ensures OldestFirst([x] + s) == OldestFirst(s) + [x]
  {
  }

  lemma LogOne(live: nat -> bool, handed: seq<nat>, entries: seq<nat>, passed: seq<nat>, x: nat)
    requires Keep(live, handed + OldestFirst(entries)) == Keep(live, passed)
    ensures handed + OldestFirst([x] + entries) == handed + OldestFirst(entries) + [x]
    ensures Keep(live, handed + OldestFirst([x] + entries)) == Keep(live, passed + [x])
  {
    OldestSnoc(entries, x);
    assert handed + (OldestFirst(entries) + [x]) == handed + OldestFirst(entries) + [x];
    KeepSnoc(live, handed + OldestFirst(entries), x);
    KeepSnoc(live, passed, x);
  }

  lemma FilterKeeps(live: nat -> bool, needed: nat -> bool, handed: seq<nat>, logged: seq<nat>)
    requires Implies(live, needed)
    ensures Keep(live, handed + Keep(needed, logged)) == Keep(live, handed + logged)
  {
    KeepConcat(live, handed, logged);
    KeepConcat(live, handed, Keep(needed, logged));
    KeepTwice(live, needed, logged);
  }

  /** The percentage of a buffer of sz bytes that is filled above a byte index. */
  method RetainedPercent(index: nat, sz: nat, ghost retained: nat, ghost all: nat) returns (percent: nat)
    requires all > 0 && sz == OOP_SIZE * all && retained <= all && index == OOP_SIZE * (all - retained)
    ensures percent == retained * 100 / all
    ensures index == 0 ==> percent == 100
  {
    var entries := sz / OOP_SIZE;
    assert entries == all && (sz - index) / OOP_SIZE == retained;
    percent := (sz - index) / OOP_SIZE * 100 / entries;
    WholePercent(all);
  }

  lemma WholePercent(n: nat)
    requires n > 0
    ensures n * 100 / n == 100
  {
    PercentUnique(n, n * 100 / n);
  }

  lemma PercentUnique(n: nat, q: nat)
    requires n * q <= n * 100 < n * (q + 1)
    ensures q == 100
  {
    if q > 100 {
      MulMono(n, 101, q);
    } else if q < 100 {
      MulMono(n, q + 1, 100);
    }
  }

  lemma MulMono(n: nat, a: nat, b: nat)
    requires a <= b
    ensures n * a <= n * b
  {
  }

  lemma CompactStep(needed: nat -> bool, rest: seq<nat>, kept: seq<nat>, entry: nat)
    requires OldestFirst(kept) == Keep(needed, OldestFirst(rest))
    ensures OldestFirst(if needed(entry) then [entry] + kept else kept) == Keep(needed, OldestFirst([entry] + rest))
  {
    OldestSnoc(rest, entry);
    KeepSnoc(needed, OldestFirst(rest), entry);
    OldestSnoc(kept, entry);
  }

  /** One round of `filter`: the entry at i moves up to just below n, or is dropped. */
  method KeepOne(buf: array<nat>, i: nat, n: nat, needed: nat -> bool) returns (n': nat)
    requires i < n <= buf.Length && forall k :: i < k < n ==> buf[k] == 0
    modifies buf
    ensures i <= n' <= n && forall k :: 0 <= k < i ==> buf[k] == old(buf[k])
    ensures forall k :: i <= k < n' ==> buf[k] == 0
    ensures buf[n'..] == if needed(old(buf[i])) then [old(buf[i])] + old(buf[n..]) else old(buf[n..])
  {
    var entry := buf[i];
    buf[i], n' := 0, n;
    if needed(entry) {
      n' := n - 1;
      buf[n'] := entry;
    }
  }

  /** The loop of `filter`, in entries: `low` is the first filled one. */
  method Compact(buf: array<nat>, low: nat, needed: nat -> bool) returns (n: nat)
    requires low <= buf.Length
    modifies buf
    ensures low <= n <= buf.Length
    ensures OldestFirst(buf[n..]) == Keep(needed, OldestFirst(old(buf[low..])))
    ensures forall k :: low <= k < n ==> buf[k] == 0
  {
    ghost var was := buf[..];
    var i := buf.Length;
    n := i;
    while i > low
      invariant low <= i <= n <= buf.Length
      invariant forall k :: 0 <= k < i ==> buf[k] == was[k]
      invariant forall k :: i <= k < n ==> buf[k] == 0
      invariant OldestFirst(buf[n..]) == Keep(needed, OldestFirst(was[i..]))
    {
      i := i - 1;
      assert was[i..] == [buf[i]] + was[i + 1..];
      CompactStep(needed, was[i + 1..], buf[n..], buf[i]);
      n := KeepOne(buf, i, n, needed);
    }
    assert was[low..] == old(buf[low..]);
  }

  /** What becomes of the entries of a full buffer: a filtering queue keeps those needed in the buffer if they are at most
      `threshold` percent of it; otherwise what is left is handed over. */
  ghost predicate Moved(capacity: nat, threshold: nat, filtering: bool, needed: nat -> bool, handed: seq<nat>, logged: seq<nat>,
                        handed': seq<nat>, logged': seq<nat>) {
    capacity > 0 &&
    var kept := if filtering then Keep(needed, logged) else logged;
    if filtering && |kept| * 100 / capacity <= threshold then handed' == handed && logged' == kept
    else handed' == handed + kept && logged' == []
  }

  class PtrQueue {
    /** Entries per buffer of the queue set. */
    const capacity: nat
    /** Whether full buffers are filtered (the SATB queue) or not (the dirty-card queue). */
    const filtering: bool
    /** A filtered buffer is handed over when more than this percentage of it was retained. */
    const threshold: nat
    /** Entries the collector needs to the end, whatever is filtered on the way. */
    ghost const live: nat -> bool

    var buf: array?<nat>
    /** Byte indices, as in the thread structure. */
    var index: nat
    var sz: nat

    /** Entries handed to the queue set, oldest first. */
    ghost var handed: seq<nat>
    /** All values passed in. */
    ghost var passed: seq<nat>

    ghost predicate Shape()
      reads this
    {
      && capacity > 0
      && index % OOP_SIZE == 0 && index <= sz
      && (buf == null ==> sz == 0)
      && (buf != null ==> buf.Length == capacity && sz == OOP_SIZE * capacity)
    }

    ghost function Logged(): seq<nat>
      requires Shape()
      reads this, buf
    {
      if buf == null then [] else OldestFirst(buf[index / OOP_SIZE..])
    }

    ghost predicate Valid()
      reads this, buf
    {
      && Shape()
      && Keep(live, handed + Logged()) == Keep(live, passed)
      && (!filtering ==> handed + Logged() == passed)
    }

    constructor (capacity: nat, filtering: bool, threshold: nat, ghost live: nat -> bool)
      requires capacity > 0
      ensures Valid() && handed == passed == [] && buf == null
      ensures this.capacity == capacity && this.filtering == filtering && this.threshold == threshold && this.live == live
    {
      this.capacity, this.filtering, this.threshold, this.live := capacity, filtering, threshold, live;
      buf, index, sz, handed, passed := null, 0, 0, [], [];
    }

    /** Store one entry in the buffer. */
    method Push(ptr: nat)
      requires Valid() && index > 0
      modifies this, buf
      ensures Valid() && buf == old(buf) && handed == old(handed) && passed == old(passed) + [ptr]
      ensures index == old(index) - OOP_SIZE && Logged() == old(Logged()) + [ptr]
    {
      ghost var entries := buf[index / OOP_SIZE..];
      passed := passed + [ptr];
      Store(ptr);
      Pushed(entries, old(passed), ptr);
      OldestSnoc(entries, ptr);
    }

    method Store(ptr: nat)
      requires Shape() && buf != null && index > 0
      modifies `index, buf
      ensures Shape() && buf[index / OOP_SIZE..] == [ptr] + old(buf[index / OOP_SIZE..])
      ensures index == old(index) - OOP_SIZE
    {
      ghost var k := index / OOP_SIZE - 1;
      ghost var entries := buf[k + 1..];
      index := index - OOP_SIZE;
      assert index / OOP_SIZE == k;
      buf[index / OOP_SIZE] := ptr;
      assert buf[k + 1..] == entries;
    }

    lemma Pushed(entries: seq<nat>, before: seq<nat>, ptr: nat)
      requires Shape() && buf != null && buf[index / OOP_SIZE..] == [ptr] + entries && passed == before + [ptr]
      requires Keep(live, handed + OldestFirst(entries)) == Keep(live, before)
      requires !filtering ==> handed + OldestFirst(entries) == before
      ensures Valid()
    {
      LogOne(live, handed, entries, before, ptr);
    }

    /** `filter`: compact the entries to keep toward the top, clearing the rest. */
    method Filter(needed: nat -> bool)
      requires Shape() && buf != null
      modifies `index, buf
      ensures Shape() && Logged() == Keep(needed, old(Logged()))
      ensures forall k :: old(index) / OOP_SIZE <= k < index / OOP_SIZE ==> buf[k] == 0
    {
      var n := Compact(buf, index / OOP_SIZE, needed);
      index := OOP_SIZE * n;
    }

    /** A full buffer that is filtered without losing an entry is only handed over below threshold 100. */
    ghost predicate Sticks(needed: nat -> bool)
      requires Shape()
      reads this, buf
    {
      buf != null && index == 0 && SticksOn(Logged(), needed)
    }

    /** The entries of a full buffer all stay and are not handed over. */
    ghost predicate SticksOn(logged: seq<nat>, needed: nat -> bool) {
      filtering && threshold >= 100 && |Keep(needed, logged)| == capacity
    }

    /** They stick in each of the first n rounds. */
    ghost predicate StickFor(logged: seq<nat>, tests: seq<nat -> bool>, n: nat)
      requires n <= |tests|
    {
      forall i :: 0 <= i < n ==> SticksOn(logged, tests[i])
    }

    lemma FullSticks(needed: nat -> bool)
      requires Shape() && buf != null && index == 0 && filtering && threshold >= 100
      requires forall x: nat :: needed(x)
      ensures Sticks(needed)
    {
      KeepAll(needed, Logged());
    }

    /** A full buffer is filtered, then handed over or reused; a reused one has room unless it sticks. */
    method ShouldEnqueueBuffer(needed: nat -> bool) returns (enqueue: bool)
      requires Valid() && index == 0 && buf != null && filtering && Implies(live, needed)
      modifies `index, buf
      ensures Valid() && Logged() == Keep(needed, old(Logged()))
      ensures enqueue <==> |Keep(needed, old(Logged()))| * 100 / capacity > threshold
      ensures index == OOP_SIZE * (capacity - |Keep(needed, old(Logged()))|)
      ensures (enqueue || index > 0) <==> (threshold < 100 || |Keep(needed, old(Logged()))| < capacity)
    {
      ghost var logged := Logged();
      Filter(needed);
      FilterKeeps(live, needed, handed, logged);
      ghost var retained := |Keep(needed, logged)|;
      assert retained == capacity - index / OOP_SIZE;
      var percent := RetainedPercent(index, sz, retained, capacity);
      enqueue := percent > threshold;
    }

    /** `handle_zero_index` of a queue without a lock; `recycle` is whether the set processed the buffer itself. */
    method HandleZeroIndex(needed: nat -> bool, recycle: bool)
      requires Valid() && index == 0 && Implies(live, needed)
      modifies this, buf
      ensures Valid() && passed == old(passed)
      ensures buf == old(buf) || fresh(buf)
      ensures Moved(capacity, threshold, filtering, needed, old(handed), old(Logged()), handed, Logged())
      ensures old(buf) == null ==> fresh(buf)
      ensures old(buf) != null && (recycle || (filtering && |Keep(needed, old(Logged()))| * 100 / capacity <= threshold)) ==> buf == old(buf)
      ensures !recycle && !(filtering && |Keep(needed, old(Logged()))| * 100 / capacity <= threshold) ==> fresh(buf)
      ensures index > 0 <==> !old(Sticks(needed))
      ensures index == 0 ==> buf == old(buf) && handed == old(handed) && Logged() == old(Logged())
    {
      ghost var logged := Logged();
      var enqueue := true;
      if buf != null && filtering {
        KeepLength(needed, logged);
        enqueue := ShouldEnqueueBuffer(needed);
      }
      if enqueue {
        HandOver(recycle);
      }
    }

    /** Give the buffer, if there is one, to the queue set and go on with an empty one. */
    method HandOver(recycle: bool)
      requires Valid()
      modifies this
      ensures Valid() && index > 0 && passed == old(passed)
      ensures if old(buf) != null && recycle then buf == old(buf) else fresh(buf)
      ensures handed == old(handed) + old(Logged()) && Logged() == []
    {
      ghost var all := handed + Logged();
      handed := all;
      if buf == null || !recycle {
        buf := new nat[capacity];
      }
      sz := OOP_SIZE * capacity;
      index := sz;
      assert Logged() == [];
      assert handed + Logged() == all;
    }

    /** `enqueue_known_active`; its retry loop ends exactly when the buffer does not stick. */
    method EnqueueKnownActive(ptr: nat, needed: nat -> bool, recycle: bool)
      requires Valid() && Implies(live, needed) && !Sticks(needed)
      modifies this, buf
      ensures Valid() && passed == old(passed) + [ptr]
      ensures buf == old(buf) || fresh(buf)
      ensures old(index) > 0 ==> handed == old(handed) && Logged() == old(Logged()) + [ptr]
      ensures old(index) == 0 ==> exists rest :: Logged() == rest + [ptr]
                                    && Moved(capacity, threshold, filtering, needed, old(handed), old(Logged()), handed, rest)
    {
      while index == 0
        invariant Valid() && passed == old(passed) && (buf == old(buf) || fresh(buf)) && (index == 0 ==> !Sticks(needed))
        invariant if old(index) > 0 || index == 0
                  then handed == old(handed) && Logged() == old(Logged()) && index == old(index)
                  else Moved(capacity, threshold, filtering, needed, old(handed), old(Logged()), handed, Logged())
        decreases if index == 0 then 1 else 0
      {
        HandleZeroIndex(needed, recycle);
      }
      Push(ptr);
    }

    /** The retry loop on a full buffer, with a marking state that may change from round to round: `tests[i]` is that of
        round i. It makes room within these rounds exactly when the entries do not stick in one of them, and in the first
        such round; before that nothing changes. */
    method RetryRounds(tests: seq<nat -> bool>, recycle: bool) returns (rounds: nat)
      requires Valid() && buf != null && index == 0 && forall i :: 0 <= i < |tests| ==> Implies(live, tests[i])
      modifies this, buf
      ensures Valid() && passed == old(passed) && rounds <= |tests|
      ensures Retried(old(Logged()), old(handed), tests, rounds, index > 0, handed, Logged())
      ensures index == 0 ==> rounds == |tests| && buf == old(buf)
    {
      ghost var logged, before := Logged(), handed;
      rounds := 0;
      while rounds < |tests| && index == 0
        invariant Valid() && passed == old(passed) && rounds <= |tests| && (buf == old(buf) || fresh(buf))
        invariant index == 0 ==> buf == old(buf)
        invariant Retried(logged, before, tests, rounds, index > 0, handed, Logged())
      {
        RetryOnce(tests[rounds], recycle);
        NextRound(logged, before, tests, rounds, index > 0, handed, Logged());
        rounds := rounds + 1;
      }
    }

    /** After n rounds from the given entries: room was made in the last of them, or nothing has changed. */
    ghost predicate Retried(logged: seq<nat>, before: seq<nat>, tests: seq<nat -> bool>, n: nat,
                            room: bool, handed': seq<nat>, logged': seq<nat>)
      requires n <= |tests|
    {
      if room then n > 0 && StickFor(logged, tests, n - 1) && Last(logged, before, tests[n - 1], true, handed', logged')
      else StickFor(logged, tests, n) && handed' == before && logged' == logged
    }

    /** One round: room is made, and the entries are moved, exactly when they do not stick. */
    ghost predicate Last(logged: seq<nat>, before: seq<nat>, test: nat -> bool, room: bool, handed': seq<nat>, logged': seq<nat>) {
      && (room <==> !SticksOn(logged, test))
      && if room then Moved(capacity, threshold, filtering, test, before, logged, handed', logged') else handed' == before && logged' == logged
    }

    method RetryOnce(test: nat -> bool, recycle: bool)
      requires Valid() && buf != null && index == 0 && Implies(live, test)
      modifies this, buf
      ensures Valid() && passed == old(passed) && (buf == old(buf) || fresh(buf)) && buf != null
      ensures index == 0 ==> buf == old(buf)
      ensures Last(old(Logged()), old(handed), test, index > 0, handed, Logged())
    {
      HandleZeroIndex(test, recycle);
    }

    lemma NextRound(logged: seq<nat>, before: seq<nat>, tests: seq<nat -> bool>, n: nat,
                    room: bool, handed': seq<nat>, logged': seq<nat>)
      requires n < |tests| && StickFor(logged, tests, n) && Last(logged, before, tests[n], room, handed', logged')
      ensures Retried(logged, before, tests, n + 1, room, handed', logged')
    {
    }

    /** The pre-barrier stub: log in the buffer when there is room, else call the runtime. */
    method Enqueue(ptr: nat, needed: nat -> bool, recycle: bool)
      requires Valid() && Implies(live, needed) && !Sticks(needed)
      modifies this, buf
      ensures Valid() && passed == old(passed) + [ptr]
      ensures buf == old(buf) || fresh(buf)
      ensures old(index) > 0 ==> handed == old(handed) && Logged() == old(Logged()) + [ptr]
      ensures old(index) == 0 ==> exists rest :: Logged() == rest + [ptr]
                                    && Moved(capacity, threshold, filtering, needed, old(handed), old(Logged()), handed, rest)
    {
      if index != 0 {
        Push(ptr);
      } else {
        EnqueueKnownActive(ptr, needed, recycle);
      }
    }
  }

  /** The largest threshold the flag admits, a buffer of one entry, and an entry that is needed: no number of
      rounds makes room. */
  method HundredPercentSticks(entry: nat, recycle: bool, rounds: nat) returns (index: nat)
    ensures index == 0
  {
    var all: nat -> bool := _ => true;
    var q := new PtrQueue(1, true, 100, all);
    q.Enqueue(entry, all, recycle);
    index := Retry(q, all, recycle, rounds);
  }

  method Retry(q: PtrQueue, all: nat -> bool, recycle: bool, rounds: nat) returns (index: nat)
    requires q.Valid() && q.buf != null && q.index == 0 && q.filtering && q.threshold >= 100 && forall x: nat :: all(x)
    modifies q, q.buf
    ensures index == 0
  {
    q.FullSticks(all);
    var n := q.RetryRounds(seq(rounds, _ => all), recycle);
    index := q.index;
  }
}
