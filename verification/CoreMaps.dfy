/**
 * The memory maps of a core dump: the map list, its sorted index, and the lookup and read
 * operations of the Linux agent (`ps_core.c`).
 */
module CoreMaps {
  import opened Options
  import opened Octets

  /** One mapping: `memsz` bytes at `vaddr`, taken from file `fd` at `offset`. */
  datatype MapInfo = MapInfo(fd: int, offset: nat, vaddr: nat, memsz: nat) {
    predicate Contains(addr: nat) { vaddr <= addr < vaddr + memsz }
  }

  type Files = map<int, seq<byte>>

  // ---------- the index ----------

  predicate Sorted(a: seq<MapInfo>) {
    forall i, j :: 0 <= i < j < |a| ==> a[i].vaddr <= a[j].vaddr
  }

  function Insert(m: MapInfo, a: seq<MapInfo>): seq<MapInfo> {
    if a == [] || m.vaddr <= a[0].vaddr then [m] + a else [a[0]] + Insert(m, a[1..])
  }

  function InsertionSort(a: seq<MapInfo>): seq<MapInfo> {
    if a == [] then [] else Insert(a[0], InsertionSort(a[1..]))
  }

  lemma SortedCons(m: MapInfo, a: seq<MapInfo>)
    requires Sorted(a) && forall k :: 0 <= k < |a| ==> m.vaddr <= a[k].vaddr
    ensures Sorted([m] + a)
  {
  }

  lemma {:induction false} InsertCounts(m: MapInfo, a: seq<MapInfo>)
    ensures multiset(Insert(m, a)) == multiset(a) + multiset{m}
  {
    if !(a == [] || m.vaddr <= a[0].vaddr) {
      InsertCounts(m, a[1..]);
      assert a == [a[0]] + a[1..];
    }
  }

  lemma {:induction false} InsertSorts(m: MapInfo, a: seq<MapInfo>)
    requires Sorted(a)
    ensures Sorted(Insert(m, a))
  {
    if !(a == [] || m.vaddr <= a[0].vaddr) {
      var r := Insert(m, a[1..]);
      InsertSorts(m, a[1..]);
      InsertCounts(m, a[1..]);
      forall k | 0 <= k < |r|
        ensures a[0].vaddr <= r[k].vaddr
      {
        assert r[k] in multiset(r);
        assert r[k] == m || r[k] in a[1..];
      }
      SortedCons(a[0], r);
    }
  }

  lemma {:induction false} SortSorts(a: seq<MapInfo>)
    ensures Sorted(InsertionSort(a)) && multiset(InsertionSort(a)) == multiset(a)
  {
    if a != [] {
      SortSorts(a[1..]);
      InsertSorts(a[0], InsertionSort(a[1..]));
      InsertCounts(a[0], InsertionSort(a[1..]));
      assert a == [a[0]] + a[1..];
    }
  }

  /** The C library sort with `core_cmp_mapping`: any sorted permutation meets this contract. */
  method Qsort(a: array<MapInfo>)
    modifies a
    ensures Sorted(a[..]) && multiset(a[..]) == multiset(old(a[..]))
  {
    var s := InsertionSort(a[..]);
    SortSorts(a[..]);
    assert |s| == |multiset(s)| == |multiset(a[..])| == a.Length;
    forall i | 0 <= i < a.Length {
      a[i] := s[i];
    }
    assert a[..] == s;
  }

  // ---------- lookup ----------

  /** The last map that starts at or below addr, or the first map if none does. */
  function Candidate(a: seq<MapInfo>, addr: nat): MapInfo
    requires |a| > 0
  {
    if |a| == 1 || a[|a| - 1].vaddr <= addr then a[|a| - 1] else Candidate(a[..|a| - 1], addr)
  }

  function FirstContaining(maps: seq<MapInfo>, addr: nat): (r: Option<MapInfo>)
    ensures r.Some? ==> r.value.Contains(addr)
  {
    if maps == [] then None else if maps[0].Contains(addr) then Some(maps[0]) else FirstContaining(maps[1..], addr)
  }

  /** What the index lookup answers: the candidate, else the first class-share map. */
  function Lookup(a: seq<MapInfo>, share: seq<MapInfo>, addr: nat): (r: Option<MapInfo>)
    requires |a| > 0
    ensures r.Some? ==> r.value.Contains(addr)
  {
    var m := Candidate(a, addr);
    if m.Contains(addr) then Some(m) else FirstContaining(share, addr)
  }

  /** The reference: scan the main list, then the class-share list. */
  function Scan(maps: seq<MapInfo>, share: seq<MapInfo>, addr: nat): Option<MapInfo> {
    var r := FirstContaining(maps, addr);
    if r.Some? then r else FirstContaining(share, addr)
  }

  lemma {:induction false} CandidateAt(a: seq<MapInfo>, addr: nat, k: nat)
    requires k < |a| && (k == 0 || a[k].vaddr <= addr)
    requires forall j :: k < j < |a| ==> addr < a[j].vaddr
    ensures Candidate(a, addr) == a[k]
  {
    if k < |a| - 1 {
      CandidateAt(a[..|a| - 1], addr, k);
    }
  }

  lemma {:induction false} FirstContainingSpec(maps: seq<MapInfo>, addr: nat)
    ensures FirstContaining(maps, addr).None? <==> forall m :: m in maps ==> !m.Contains(addr)
    ensures FirstContaining(maps, addr).Some? ==>
              FirstContaining(maps, addr).value in maps && FirstContaining(maps, addr).value.Contains(addr)
    ensures forall i :: 0 <= i < |maps| && maps[i].Contains(addr) && (forall j :: 0 <= j < i ==> !maps[j].Contains(addr)) ==>
              FirstContaining(maps, addr) == Some(maps[i])
  {
    if maps != [] {
      FirstContainingSpec(maps[1..], addr);
      assert maps == [maps[0]] + maps[1..];
    }
  }

  /** Non-empty and pairwise disjoint, as the loader's segments are. */
  ghost predicate Disjoint(maps: seq<MapInfo>) {
    && (forall i :: 0 <= i < |maps| ==> maps[i].memsz > 0)
    && (forall i, j :: 0 <= i < j < |maps| ==> Apart(maps[i], maps[j]))
  }

  predicate Apart(m: MapInfo, n: MapInfo) { m.vaddr + m.memsz <= n.vaddr || n.vaddr + n.memsz <= m.vaddr }

  lemma {:induction false} CandidateIndex(a: seq<MapInfo>, addr: nat) returns (k: nat)
    requires |a| > 0
    ensures k < |a| && Candidate(a, addr) == a[k] && (k == 0 || a[k].vaddr <= addr)
    ensures forall j :: k < j < |a| ==> addr < a[j].vaddr
  {
    if |a| == 1 || a[|a| - 1].vaddr <= addr {
      k := |a| - 1;
    } else {
      k := CandidateIndex(a[..|a| - 1], addr);
    }
  }

  lemma CountedOnce(a: seq<MapInfo>, p: nat)
    requires Disjoint(a) && p < |a|
    ensures multiset(a)[a[p]] == 1
  {
    assert a == a[..p] + [a[p]] + a[p + 1..];
    assert a[p] !in multiset(a[..p]) && a[p] !in multiset(a[p + 1..]);
  }

  lemma CountedTwice(b: seq<MapInfo>, i: nat, j: nat)
    requires i < j < |b| && b[i] == b[j]
    ensures multiset(b)[b[i]] >= 2
  {
    assert b == b[..j] + [b[j]] + b[j + 1..];
    assert b[..j][i] in multiset(b[..j]);
  }

  /** Disjointness is a property of the collection, not of its order. */
  lemma DisjointPermutes(a: seq<MapInfo>, b: seq<MapInfo>)
    requires Disjoint(a) && multiset(a) == multiset(b)
    ensures Disjoint(b)
  {
    forall i | 0 <= i < |b|
      ensures b[i].memsz > 0
    {
      assert b[i] in multiset(b);
      assert b[i] in a;
    }
    forall i, j | 0 <= i < j < |b|
      ensures Apart(b[i], b[j])
    {
      assert b[i] in multiset(a) && b[j] in multiset(a);
      var p :| 0 <= p < |a| && a[p] == b[i];
      var q :| 0 <= q < |a| && a[q] == b[j];
      if p == q {
        CountedTwice(b, i, j);
        CountedOnce(a, p);
      }
    }
  }

  /** The binary-search index and the linear scan of the list agree on every address. */
  lemma IndexAgreesWithScan(maps: seq<MapInfo>, a: seq<MapInfo>, share: seq<MapInfo>, addr: nat)
    requires Disjoint(maps) && Sorted(a) && multiset(a) == multiset(maps) && |a| > 0
    ensures Lookup(a, share, addr) == Scan(maps, share, addr)
  {
    FirstContainingSpec(maps, addr);
    DisjointPermutes(maps, a);
    var k := CandidateIndex(a, addr);
    assert a[k] in multiset(maps);
    var r := FirstContaining(maps, addr);
    if r.Some? {
      var m := r.value;
      assert m in multiset(a);
      var i :| 0 <= i < |a| && a[i] == m;
      assert i <= k;
      assert i == k;
    }
  }

  /** Maps that may be empty; the non-empty ones are pairwise disjoint. */
  ghost predicate NonEmptyApart(a: seq<MapInfo>) {
    forall i, j :: 0 <= i < j < |a| && a[i].memsz > 0 && a[j].memsz > 0 ==> Apart(a[i], a[j])
  }

  /** A map is found for its address iff the last map that starts at or below the address is not empty. */
  lemma FoundUnlessEmpty(a: seq<MapInfo>, share: seq<MapInfo>, addr: nat, m: MapInfo)
    requires Sorted(a) && NonEmptyApart(a) && m in a && m.Contains(addr)
    ensures Candidate(a, addr).memsz > 0 <==> Candidate(a, addr) == m
    ensures Candidate(a, addr).memsz > 0 ==> Lookup(a, share, addr) == Some(m)
    ensures Candidate(a, addr).memsz == 0 ==> Lookup(a, share, addr) == FirstContaining(share, addr)
  {
    var k := CandidateIndex(a, addr);
    var i :| 0 <= i < |a| && a[i] == m;
    assert i <= k;
  }

  /** An empty map inside another one hides it from the index: the lookup misses address 6 although
      the first map contains it. The loader never adds an empty segment. */
  lemma EmptyMapHides()
    ensures var a := [MapInfo(3, 0, 0, 10), MapInfo(3, 10, 5, 0)];
            Sorted(a) && Lookup(a, [], 6) == None && Scan(a, [], 6) == Some(a[0])
  {
    CandidateAt([MapInfo(3, 0, 0, 10), MapInfo(3, 10, 5, 0)], 6, 1);
  }
}
