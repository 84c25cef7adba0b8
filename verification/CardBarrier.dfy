/** The G1 post-barrier stub: dirty a card once and log its address in the dirty-card queue. */
module CardBarrier {
  import opened FirstSeen
  import opened PtrQueues

  const CARD_BYTES: nat := 512
  const PAGE: nat := 0x1000
  const ADRP_RANGE: nat := 0x1_0000_0000
  const DIRTY: int := 0
  const YOUNG: int := 32

  /** A card the barrier acts on. */
  predicate Loggable(v: int) { v != YOUNG && v != DIRTY }

  function Wanted(init: seq<int>): nat -> bool { (c: nat) => c < |init| && Loggable(init[c]) }

  /** The cards logged by a run of stores: each loggable one at its first store. */
  function LoggedCards(init: seq<int>, stores: seq<nat>): seq<nat> { Firsts(Keep(Wanted(init), stores)) }

  function Addresses(page: nat, cards: seq<nat>): (r: seq<nat>)
    ensures |r| == |cards|
  {
    seq(|cards|, i requires 0 <= i < |cards| => page + cards[i])
  }

  /** The table after a run of stores. */
  ghost predicate TableIs(init: seq<int>, stores: seq<nat>, now: seq<int>) {
    |now| == |init| && forall c :: 0 <= c < |now| ==> now[c] == if c in stores && Loggable(init[c]) then DIRTY else init[c]
  }

  lemma {:induction false} KeepMember(p: nat -> bool, s: seq<nat>, x: nat)
    ensures x in Keep(p, s) <==> x in s && p(x)
  {
    if s != [] {
      var t, y := s[..|s| - 1], s[|s| - 1];
      KeepMember(p, t, x);
      assert s == t + [y];
    }
  }

  lemma NotLogged(init: seq<int>, stores: seq<nat>, now: seq<int>, c: nat)
    requires TableIs(init, stores, now) && c < |init| && !Loggable(now[c])
    ensures LoggedCards(init, stores + [c]) == LoggedCards(init, stores) && TableIs(init, stores + [c], now)
  {
    var p := Wanted(init);
    KeepSnoc(p, stores, c);
    if p(c) {
      KeepMember(p, stores, c);
      FirstsOf(Keep(p, stores), c);
      FirstsExact(Keep(p, stores));
    } else {
      assert Keep(p, stores) + [] == Keep(p, stores);
    }
    assert forall k :: k in stores + [c] <==> k in stores || k == c;
  }

  lemma NewlyLogged(init: seq<int>, stores: seq<nat>, now: seq<int>, c: nat)
    requires TableIs(init, stores, now) && c < |init| && Loggable(now[c])
    ensures LoggedCards(init, stores + [c]) == LoggedCards(init, stores) + [c]
    ensures TableIs(init, stores + [c], now[c := DIRTY])
  {
    assert now[c] == init[c] && c !in stores;
    FirstStore(init, stores, c);
    assert forall k :: k in stores + [c] <==> k in stores || k == c;
  }

  lemma FirstStore(init: seq<int>, stores: seq<nat>, c: nat)
    requires c < |init| && Loggable(init[c]) && c !in stores
    ensures LoggedCards(init, stores + [c]) == LoggedCards(init, stores) + [c]
  {
    var p := Wanted(init);
    KeepSnoc(p, stores, c);
    KeepMember(p, stores, c);
    FirstsOf(Keep(p, stores), c);
    FirstsExact(Keep(p, stores));
  }

  /** The table and the logged addresses are those of the stores so far. */
  ghost predicate Recorded(init: seq<int>, stores: seq<nat>, now: seq<int>, page: nat, passed: seq<nat>) {
    TableIs(init, stores, now) && passed == Addresses(page, LoggedCards(init, stores))
  }

  lemma SkipStep(init: seq<int>, stores: seq<nat>, now: seq<int>, page: nat, passed: seq<nat>, c: nat)
    requires Recorded(init, stores, now, page, passed) && c < |now| && !Loggable(now[c])
    ensures Recorded(init, stores + [c], now, page, passed)
  {
    NotLogged(init, stores, now, c);
  }

  lemma LogStep(init: seq<int>, stores: seq<nat>, now: seq<int>, page: nat, passed: seq<nat>, c: nat)
    requires Recorded(init, stores, now, page, passed) && c < |now| && Loggable(now[c])
    ensures Recorded(init, stores + [c], now[c := DIRTY], page, passed + [page + c])
  {
    NewlyLogged(init, stores, now, c);
  }

  class Barrier {
    const cards: array<int>
    const queue: PtrQueue
    /** The card-table base: the card of an address is base plus the address over 512. */
    const base: nat
    /** Where the stub's `adrp` stands. */
    const pc: nat
    ghost const init: seq<int>
    /** The cards stored to so far. */
    ghost var stores: seq<nat>

    /** Out of reach of an adrp instruction, `adrp` moves the whole address. */
    predicate Far() { pc - base >= ADRP_RANGE || base - pc >= ADRP_RANGE }

    /** What `adrp` puts in the register: the page of the table base, or the base itself. */
    function Page(): nat { if Far() then base else base / PAGE * PAGE }

    /** The byte offset it returns; the stub adds it in its loads and stores only. */
    function Offset(): nat { if Far() then 0 else base % PAGE }

    /** The table byte the stub's loads and store address: always the card of the address. */
    function CardOf(address: nat): (c: nat)
      ensures c == address / CARD_BYTES
    {
      Page() + address / CARD_BYTES + Offset() - base
    }

    ghost predicate Apart()
      reads queue
    {
      (queue.buf as object?) != (cards as object)
    }

    ghost predicate Valid()
      reads this, cards, queue, queue.buf
    {
      && queue.Valid() && !queue.filtering && Apart()
      && Recorded(init, stores, cards[..], Page(), queue.passed)
    }

    constructor (cards: array<int>, base: nat, pc: nat, capacity: nat)
      requires capacity > 0
      ensures Valid() && stores == [] && this.cards == cards && this.base == base && this.pc == pc && init == cards[..]
      ensures fresh(queue) && queue.buf == null
    {
      this.cards, this.base, this.pc, this.init, this.stores := cards, base, pc, cards[..], [];
      queue := new PtrQueue(capacity, false, 0, _ => true);
    }

    /** The stub for a store to `address`. */
    method PostBarrier(address: nat, recycle: bool)
      requires Valid() && address / CARD_BYTES < cards.Length
      modifies this, cards, queue, queue.buf
      ensures Valid() && stores == old(stores) + [address / CARD_BYTES]
    {
      var card := CardOf(address);
      if cards[card] == YOUNG || cards[card] == DIRTY {
        SkipStep(init, stores, cards[..], Page(), queue.passed, card);
        stores := stores + [card];
        return;
      }
      DirtyAndLog(card, recycle);
    }

    method DirtyAndLog(card: nat, recycle: bool)
      requires Valid() && card < cards.Length && Loggable(cards[card])
      modifies this, cards, queue, queue.buf
      ensures Valid() && stores == old(stores) + [card]
    {
      ghost var before, now, passed := stores, cards[..], queue.passed;
      stores := stores + [card];
      WriteAndLog(card, recycle);
      Restored(before, now, passed, card);
    }

    lemma Restored(before: seq<nat>, now: seq<int>, passed: seq<nat>, card: nat)
      requires queue.Valid() && !queue.filtering && Apart()
      requires Recorded(init, before, now, Page(), passed) && card < |now| && Loggable(now[card])
      requires stores == before + [card] && cards[..] == now[card := DIRTY] && queue.passed == passed + [Page() + card]
      ensures Valid()
    {
      LogStep(init, before, now, Page(), passed, card);
    }

    method WriteAndLog(card: nat, recycle: bool)
      requires Apart() && queue.Valid() && !queue.filtering && card < cards.Length
      modifies cards, queue, queue.buf
      ensures Apart() && queue.Valid() && queue.passed == old(queue.passed) + [Page() + card]
      ensures cards[..] == old(cards[..])[card := DIRTY]
    {
      Dirty(card);
      LogAddress(Page() + card, recycle);
    }

    method Dirty(card: nat)
      requires Apart() && queue.Valid() && card < cards.Length
      modifies cards
      ensures cards[..] == old(cards[..])[card := DIRTY] && queue.Valid()
    {
      cards[card] := DIRTY;
    }

    /** Logging touches the queue and nothing else. */
    method LogAddress(address: nat, recycle: bool)
      requires Apart() && queue.Valid() && !queue.filtering
      modifies queue, queue.buf
      ensures Apart() && queue.Valid() && queue.passed == old(queue.passed) + [address]
      ensures cards[..] == old(cards[..])
    {
      queue.Enqueue(address, _ => true, recycle);
    }
  }

  /** Each initially clean, non-young card stored to is logged exactly once; no other card is logged. */
  lemma LoggedOnce(init: seq<int>, stores: seq<nat>, page: nat, c: nat)
    requires c < |init|
    ensures Occurs(Addresses(page, LoggedCards(init, stores)), page + c)
            == if c in stores && init[c] != YOUNG && init[c] != DIRTY then 1 else 0
  {
    var logged := LoggedCards(init, stores);
    FirstsExact(Keep(Wanted(init), stores));
    KeepMember(Wanted(init), stores, c);
    OccursOnce(logged, page, c);
  }

  lemma {:induction false} OccursOnce(s: seq<nat>, page: nat, c: nat)
    requires Distinct(s)
    ensures Occurs(Addresses(page, s), page + c) == if c in s then 1 else 0
  {
    if s != [] {
      var t, x := s[..|s| - 1], s[|s| - 1];
      OccursOnce(t, page, c);
      assert s == t + [x];
      assert Addresses(page, s)[..|s| - 1] == Addresses(page, t);
      assert x !in t;
    }
  }

  lemma PageIsBase(b: Barrier)
    ensures b.Page() == b.base <==> b.Far() || b.base % PAGE == 0
  {
  }

  /** After any run of stores, each logged entry is the address of its card exactly when the table base is out of
      reach of an adrp or page-aligned; so one wrong entry means that all are wrong. */
  lemma LoggedAddressIsCard(b: Barrier, k: nat)
    requires b.Valid() && k < |b.queue.passed|
    ensures var logged := LoggedCards(b.init, b.stores);
            && |logged| == |b.queue.passed| && logged[k] in b.stores
            && logged[k] < |b.init| && b.init[logged[k]] != YOUNG && b.init[logged[k]] != DIRTY
            && (b.queue.passed[k] == b.base + logged[k] <==> b.Far() || b.base % PAGE == 0)
  {
    var logged := LoggedCards(b.init, b.stores);
    PageIsBase(b);
    FirstsExact(Keep(Wanted(b.init), b.stores));
    KeepMember(Wanted(b.init), b.stores, logged[k]);
  }

  /** The address logged for one store to card 0 of a clean table at `base`, by a stub at `pc`. */
  method LogOneCard(base: nat, pc: nat, recycle: bool) returns (b: Barrier)
    ensures fresh(b) && b.Valid() && b.base == base && b.pc == pc && b.queue.passed == [b.Page()]
  {
    b := OneCleanCard(base, pc);
    b.PostBarrier(0, recycle);
    OneLogged(b);
  }

  method OneCleanCard(base: nat, pc: nat) returns (b: Barrier)
    ensures fresh(b) && fresh(b.cards) && fresh(b.queue) && b.queue.buf == null && b.cards.Length == 1
    ensures b.Valid() && b.base == base && b.pc == pc && b.stores == [] && b.init == [1]
  {
    var cards := new int[1](_ => 1);
    b := new Barrier(cards, base, pc, 1);
  }

  lemma OneLogged(b: Barrier)
    requires b.Valid() && b.stores == [0] && b.init == [1]
    ensures b.queue.passed == [b.Page()]
  {
    FirstStore(b.init, [], 0);
    assert LoggedCards(b.init, []) == [] && [] + [0] == [0];
    assert Addresses(b.Page(), [0]) == [b.Page()];
  }

  /** Near and unaligned, the entry is 0x800 bytes below the card; at the same base but far away it is the card. */
  method UnalignedBases(recycle: bool) returns (near: Barrier, far: Barrier)
    ensures near.base == far.base == 0x1800
    ensures near.queue.passed == [0x1000] && far.queue.passed == [0x1800]
  {
    near := LogOneCard(0x1800, 0x2000, recycle);
    far := LogOneCard(0x1800, 0x2_0000_0000, recycle);
  }
}
