/** What `core_read_data` reads, map by map, and what it should read. */
module CoreRead {
  import opened Options
  import opened Octets
  import opened CoreMaps

  const ADDRESS_SPACE: nat := 0x1_0000_0000_0000_0000

  function Min(x: nat, y: nat): nat { if x < y then x else y }

  /** The bytes `pread` returns: none for an unknown file or past its end, fewer than asked at its end. */
  function Pread(files: Files, fd: int, len: nat, off: nat): seq<byte> {
    if fd !in files || off >= |files[fd]| then [] else files[fd][off..Min(off + len, |files[fd]|)]
  }

  function Zeros(n: nat): seq<byte> { seq(n, _ => 0) }

  /** Everything a read depends on. */
  datatype View = View(index: seq<MapInfo>, share: seq<MapInfo>, files: Files, page: nat)

  /** What map m delivers: its file bytes, then the zeros of its last page. */
  function MapBytes(files: Files, page: nat, m: MapInfo, addr: nat, resid: nat): (r: seq<byte>)
    requires m.Contains(addr) && page > 0
    ensures |r| <= resid
  {
    var d := Pread(files, m.fd, Min(resid, m.memsz - (addr - m.vaddr)), m.offset + (addr - m.vaddr));
    if d == [] then [] else d + Zeros(Min(resid - |d|, Tail(m.memsz, page)))
  }

  /** The bytes of one round; none when the address is not mapped or its file byte is missing. */
  function Round(v: View, addr: nat, resid: nat): (r: seq<byte>)
    requires |v.index| > 0 && v.page > 0
    ensures |r| <= resid
  {
    match Lookup(v.index, v.share, addr)
    case None => []
    case Some(m) => MapBytes(v.files, v.page, m, addr, resid)
  }

  /** The bytes from the end of a region of n bytes to the next page boundary. */
  function Tail(n: nat, page: nat): (t: nat)
    requires page > 0
    ensures t < page
  {
    if n == 0 then 0 else if n <= page then page - n else Tail(n - page, page)
  }

  lemma {:induction false} TailIsRemainder(n: nat, page: nat)
    requires page > 0
    ensures Tail(n, page) == if n % page > 0 then page - n % page else 0
  {
    if n > page {
      TailIsRemainder(n - page, page);
      SubPage(n, page);
    } else if n == page {
      SubPage(n, page);
    }
  }

  lemma SubPage(n: nat, page: nat)
    requires 0 < page <= n
    ensures (n - page) % page == n % page
  {
    var q, r := n / page, n % page;
    assert n == q * page + r && q >= 1;
    assert n - page == (q - 1) * page + r;
    DivModUnique(n - page, page, q - 1, r);
  }

  lemma AtLeastOne(k: int, page: nat)
    requires k >= 1
    ensures k * page >= page
  {
    assert (k - 1) * page >= 0;
    assert k * page == (k - 1) * page + page;
  }

  lemma DivModUnique(x: nat, page: nat, q: nat, r: nat)
    requires page > 0 && x == q * page + r && r < page
    ensures x % page == r
  {
    var q' := x / page;
    assert x == q' * page + x % page;
    if q > q' {
      AtLeastOne(q - q', page);
    } else if q < q' {
      AtLeastOne(q' - q, page);
    }
  }

  // ---------- what should be there ----------

  function PaddedEnd(v: View, m: MapInfo): nat
    requires v.page > 0
  {
    m.vaddr + m.memsz + Tail(m.memsz, v.page)
  }

  function AllMaps(v: View): seq<MapInfo> { v.index + v.share }

  /** Page-aligned, non-empty maps whose page-padded extents are pairwise disjoint; files may be short. */
  ghost predicate Laid(v: View) {
    && v.page > 0 && |v.index| > 0 && Sorted(v.index)
    && (forall i {:trigger MapPlaced(v, AllMaps(v)[i])} :: 0 <= i < |AllMaps(v)| ==> MapPlaced(v, AllMaps(v)[i]))
    && (forall i, j {:trigger PaddedApart(v, AllMaps(v)[i], AllMaps(v)[j])} ::
          0 <= i < j < |AllMaps(v)| ==> PaddedApart(v, AllMaps(v)[i], AllMaps(v)[j]))
  }

  /** Laid out, and every map is fully backed by its file. */
  ghost predicate WellFormed(v: View) { Laid(v) && forall m :: m in AllMaps(v) ==> MapBacked(v, m) }

  predicate MapPlaced(v: View, m: MapInfo)
    requires v.page > 0
  {
    m.vaddr % v.page == 0 && m.memsz > 0 && PaddedEnd(v, m) <= ADDRESS_SPACE
  }

  function FileLength(v: View, m: MapInfo): nat { if m.fd in v.files then |v.files[m.fd]| else 0 }

  predicate MapBacked(v: View, m: MapInfo) { m.offset + m.memsz <= FileLength(v, m) }

  predicate PaddedApart(v: View, m: MapInfo, n: MapInfo)
    requires v.page > 0
  {
    PaddedEnd(v, m) <= n.vaddr || PaddedEnd(v, n) <= m.vaddr
  }

  /** The map m extends over addr, its page tail included. */
  predicate Extends(v: View, m: MapInfo, addr: nat)
    requires v.page > 0
  {
    m in AllMaps(v) && m.vaddr <= addr < PaddedEnd(v, m)
  }

  /** The file of m has the byte for addr. */
  predicate HasByte(v: View, m: MapInfo, addr: nat) { m.Contains(addr) && m.offset + (addr - m.vaddr) < FileLength(v, m) }

  /** b is what m says is at addr: the file byte, or zero in the page tail. */
  predicate Shows(v: View, m: MapInfo, addr: nat, b: byte) {
    if m.Contains(addr) then HasByte(v, m, addr) && b == v.files[m.fd][m.offset + (addr - m.vaddr)] else b == 0
  }

  ghost predicate InMap(v: View, addr: nat) { exists m :: m in AllMaps(v) && m.Contains(addr) }

  /** The address lies in a map or in the rest of a map's last page. */
  ghost predicate Covered(v: View, addr: nat)
    requires v.page > 0
  {
    exists m :: Extends(v, m, addr)
  }

  /** The address lies in a map whose file is too short for it. */
  ghost predicate Missing(v: View, addr: nat) { exists m :: m in AllMaps(v) && m.Contains(addr) && !HasByte(v, m, addr) }

  /** `b` is the right content for `addr`: the mapped file byte, or zero in the page tail. */
  ghost predicate RightByte(v: View, addr: nat, b: byte)
    requires v.page > 0
  {
    exists m :: Extends(v, m, addr) && Shows(v, m, addr, b)
  }

  /** Every byte of s is the right one for its place from address a on. */
  ghost predicate AllRight(v: View, a: nat, s: seq<byte>)
    requires v.page > 0
  {
    forall i :: 0 <= i < |s| ==> RightByte(v, a + i, s[i])
  }

  ghost predicate Readable(v: View, addr: nat, size: nat)
    requires v.page > 0
  {
    size == 0 || (InMap(v, addr) && forall i :: addr <= i < addr + size ==> Covered(v, i))
  }

  // ---------- lookups ----------

  lemma SamePadded(v: View, m: MapInfo, n: MapInfo, addr: nat)
    requires Laid(v) && Extends(v, m, addr) && Extends(v, n, addr)
    ensures m == n
  {
    var all := AllMaps(v);
    var i :| 0 <= i < |all| && all[i] == m;
    var j :| 0 <= j < |all| && all[j] == n;
    assert i < j ==> PaddedApart(v, all[i], all[j]);
    assert j < i ==> PaddedApart(v, all[j], all[i]);
  }

  lemma MapIsPlaced(v: View, m: MapInfo)
    requires Laid(v) && m in AllMaps(v)
    ensures MapPlaced(v, m)
  {
    var i :| 0 <= i < |AllMaps(v)| && AllMaps(v)[i] == m;
    assert MapPlaced(v, AllMaps(v)[i]);
  }

  lemma IndexDisjoint(v: View)
    requires Laid(v)
    ensures Disjoint(v.index)
  {
    forall i | 0 <= i < |v.index|
      ensures v.index[i].memsz > 0
    {
      assert MapPlaced(v, AllMaps(v)[i]);
    }
    forall i, j | 0 <= i < j < |v.index|
      ensures Apart(v.index[i], v.index[j])
    {
      assert PaddedApart(v, AllMaps(v)[i], AllMaps(v)[j]);
    }
  }

  /** A lookup finds a map exactly when some map contains the address. */
  lemma LookupFinds(v: View, addr: nat)
    requires Laid(v)
    ensures Lookup(v.index, v.share, addr).Some? <==> InMap(v, addr)
    ensures Lookup(v.index, v.share, addr).Some? ==> Lookup(v.index, v.share, addr).value in AllMaps(v)
  {
    IndexDisjoint(v);
    IndexAgreesWithScan(v.index, v.index, v.share, addr);
    FirstContainingSpec(v.index, addr);
    FirstContainingSpec(v.share, addr);
  }

  // ---------- page arithmetic ----------

  lemma {:induction false} AlignedSum(a: nat, b: nat, page: nat)
    requires page > 0 && a % page == 0
    ensures (a + b) % page == b % page
  {
    var q, q', r := a / page, b / page, b % page;
    assert a == q * page && b == q' * page + r;
    assert a + b == (q + q') * page + r;
    DivModUnique(a + b, page, q + q', r);
  }

  lemma PaddedEndAligned(v: View, m: MapInfo)
    requires v.page > 0 && m.vaddr % v.page == 0
    ensures PaddedEnd(v, m) % v.page == 0
  {
    var q, r := m.memsz / v.page, m.memsz % v.page;
    TailIsRemainder(m.memsz, v.page);
    AlignedSum(m.vaddr, m.memsz + Tail(m.memsz, v.page), v.page);
    if r > 0 {
      assert m.memsz + Tail(m.memsz, v.page) == (q + 1) * v.page;
      DivModUnique(m.memsz + Tail(m.memsz, v.page), v.page, q + 1, 0);
    }
  }

  /** No page boundary lies inside the zero tail of a map. */
  lemma TailHasNoBoundary(v: View, m: MapInfo, addr: nat)
    requires v.page > 0 && m.vaddr % v.page == 0 && m.vaddr + m.memsz <= addr < PaddedEnd(v, m)
    ensures addr % v.page != 0
  {
    var q, r := m.memsz / v.page, m.memsz % v.page;
    var d := addr - m.vaddr;
    TailIsRemainder(m.memsz, v.page);
    DivModUnique(d, v.page, q, d - q * v.page);
    AlignedSum(m.vaddr, d, v.page);
  }

  /** On a page boundary, being covered and being mapped are the same. */
  lemma BoundaryCovered(v: View, addr: nat)
    requires Laid(v) && Tail(addr, v.page) == 0 && Covered(v, addr)
    ensures InMap(v, addr)
  {
    var m :| Extends(v, m, addr);
    MapIsPlaced(v, m);
    TailIsRemainder(addr, v.page);
    if !m.Contains(addr) {
      TailHasNoBoundary(v, m, addr);
    }
  }

  lemma PaddedEndOnPage(v: View, m: MapInfo)
    requires Laid(v) && m in AllMaps(v)
    ensures Tail(PaddedEnd(v, m), v.page) == 0
  {
    MapIsPlaced(v, m);
    PaddedEndAligned(v, m);
    TailIsRemainder(PaddedEnd(v, m), v.page);
  }

  // ---------- right bytes ----------

  /** The one map that extends over an address decides what is right there. */
  lemma RightIn(v: View, m: MapInfo, addr: nat, b: byte)
    requires Laid(v) && Extends(v, m, addr)
    ensures RightByte(v, addr, b) <==> Shows(v, m, addr, b)
  {
    if RightByte(v, addr, b) {
      var n :| Extends(v, n, addr) && Shows(v, n, addr, b);
      SamePadded(v, m, n, addr);
    }
  }

  lemma MissingIn(v: View, m: MapInfo, addr: nat)
    requires Laid(v) && Extends(v, m, addr)
    ensures Missing(v, addr) <==> m.Contains(addr) && !HasByte(v, m, addr)
    ensures InMap(v, addr) <==> m.Contains(addr)
  {
    forall n | n in AllMaps(v) && n.Contains(addr)
      ensures n == m
    {
      SamePadded(v, m, n, addr);
    }
  }

  /** A right byte is covered and not missing. */
  lemma RightIsThere(v: View, addr: nat, b: byte)
    requires Laid(v) && RightByte(v, addr, b)
    ensures Covered(v, addr) && !Missing(v, addr)
  {
    var m :| Extends(v, m, addr) && Shows(v, m, addr, b);
    MissingIn(v, m, addr);
  }

  /** Only one byte is right for an address. */
  lemma RightByteUnique(v: View, addr: nat, b: byte, c: byte)
    requires Laid(v) && RightByte(v, addr, b) && RightByte(v, addr, c)
    ensures b == c
  {
    var m :| Extends(v, m, addr) && Shows(v, m, addr, b);
    RightIn(v, m, addr, c);
  }

  lemma AllRightConcat(v: View, a: nat, s: seq<byte>, t: seq<byte>)
    requires v.page > 0 && AllRight(v, a, s) && AllRight(v, a + |s|, t)
    ensures AllRight(v, a, s + t)
  {
    forall i | 0 <= i < |s + t|
      ensures RightByte(v, a + i, (s + t)[i])
    {
      if i >= |s| {
        assert RightByte(v, a + |s| + (i - |s|), t[i - |s|]);
      }
    }
  }

  // ---------- one round ----------

  /** The bytes of m's file from addr on are right. */
  lemma FileBytesRight(v: View, m: MapInfo, addr: nat, n: nat)
    requires Laid(v) && m in AllMaps(v) && m.vaddr <= addr && addr + n <= m.vaddr + m.memsz
    requires m.fd in v.files && m.offset + (addr - m.vaddr) + n <= |v.files[m.fd]|
    ensures var off := m.offset + (addr - m.vaddr); AllRight(v, addr, v.files[m.fd][off..off + n])
  {
    var off := m.offset + (addr - m.vaddr);
    var d := v.files[m.fd][off..off + n];
    forall i | 0 <= i < |d|
      ensures RightByte(v, addr + i, d[i])
    {
      assert Extends(v, m, addr + i) && Shows(v, m, addr + i, d[i]);
    }
  }

  lemma TailZerosRight(v: View, m: MapInfo, n: nat)
    requires Laid(v) && m in AllMaps(v) && n <= Tail(m.memsz, v.page)
    ensures AllRight(v, m.vaddr + m.memsz, Zeros(n))
  {
    forall i | 0 <= i < n
      ensures RightByte(v, m.vaddr + m.memsz + i, Zeros(n)[i])
    {
      assert Extends(v, m, m.vaddr + m.memsz + i) && Shows(v, m, m.vaddr + m.memsz + i, 0);
    }
  }

  /** The request ends, or the file has all of it: the round is right up to the request or the padded end. */
  lemma FullRound(v: View, m: MapInfo, addr: nat, resid: nat)
    requires Laid(v) && m in AllMaps(v) && m.Contains(addr) && resid > 0
    requires m.offset + (addr - m.vaddr) + Min(resid, m.memsz - (addr - m.vaddr)) <= FileLength(v, m)
    ensures var r := MapBytes(v.files, v.page, m, addr, resid);
            r != [] && AllRight(v, addr, r) && (|r| == resid || addr + |r| == PaddedEnd(v, m))
  {
    var off, len := m.offset + (addr - m.vaddr), Min(resid, m.memsz - (addr - m.vaddr));
    var d := v.files[m.fd][off..off + len];
    var z := Min(resid - len, Tail(m.memsz, v.page));
    assert MapBytes(v.files, v.page, m, addr, resid) == d + Zeros(z);
    FileBytesRight(v, m, addr, len);
    if resid > len {
      TailZerosRight(v, m, z);
      AllRightConcat(v, addr, d, Zeros(z));
    } else {
      assert d + Zeros(z) == d;
    }
  }

  /** The file ends at address e inside the request: its last bytes, then up to a page tail of zeros. */
  lemma ShortRound(v: View, m: MapInfo, addr: nat, resid: nat, e: nat)
    requires Laid(v) && m in AllMaps(v) && m.Contains(addr) && m.Contains(e) && addr < e < addr + resid
    requires m.offset + (e - m.vaddr) == FileLength(v, m)
    ensures var off := m.offset + (addr - m.vaddr);
            && m.fd in v.files && off + (e - addr) == |v.files[m.fd]| && AllRight(v, addr, v.files[m.fd][off..])
            && MapBytes(v.files, v.page, m, addr, resid)
               == v.files[m.fd][off..] + Zeros(Min(resid - (e - addr), Tail(m.memsz, v.page)))
  {
    FileBytesRight(v, m, addr, e - addr);
    var off := m.offset + (addr - m.vaddr);
    assert v.files[m.fd][off..] == v.files[m.fd][off..off + (e - addr)];
  }

  /** A round on m is right iff the file has none of the request, has all of it, or m fills its last page. */
  lemma RoundRightIff(v: View, m: MapInfo, addr: nat, resid: nat)
    requires Laid(v) && m in AllMaps(v) && m.Contains(addr) && resid > 0
    ensures var off, len := m.offset + (addr - m.vaddr), Min(resid, m.memsz - (addr - m.vaddr));
            AllRight(v, addr, MapBytes(v.files, v.page, m, addr, resid))
            <==> FileLength(v, m) <= off || off + len <= FileLength(v, m) || Tail(m.memsz, v.page) == 0
  {
    var off, len := m.offset + (addr - m.vaddr), Min(resid, m.memsz - (addr - m.vaddr));
    if off + len <= FileLength(v, m) {
      FullRound(v, m, addr, resid);
    } else if off < FileLength(v, m) {
      var e := addr + (FileLength(v, m) - off);
      ShortRound(v, m, addr, resid, e);
      var d, z := v.files[m.fd][off..], Min(resid - (e - addr), Tail(m.memsz, v.page));
      if z == 0 {
        assert d + Zeros(z) == d;
      } else {
        assert (d + Zeros(z))[e - addr] == 0;
        RightIn(v, m, addr + (e - addr), 0);
      }
    }
  }

  /** A round delivers nothing exactly where no map has a byte. */
  lemma RoundStarts(v: View, addr: nat, resid: nat)
    requires Laid(v) && resid > 0
    ensures Round(v, addr, resid) == [] <==> !InMap(v, addr) || Missing(v, addr)
    ensures Round(v, addr, resid) != [] ==>
              exists m :: m in AllMaps(v) && HasByte(v, m, addr) && Round(v, addr, resid) == MapBytes(v.files, v.page, m, addr, resid)
  {
    LookupFinds(v, addr);
    var found := Lookup(v.index, v.share, addr);
    if found.Some? {
      MissingIn(v, found.value, addr);
      assert HasByte(v, found.value, addr) <==> Round(v, addr, resid) != [];
    }
  }
}
