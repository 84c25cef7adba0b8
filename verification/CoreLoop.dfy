/** The rounds of `core_read_data` put together: when the loop succeeds, and what it has then read. */
module CoreLoop {
  import opened Options
  import opened Octets
  import opened CoreMaps
  import opened CoreRead

  // ---------- the two ways to succeed ----------

  /** The range is mapped, page tails included, and no file is too short for it. */
  ghost predicate Complete(v: View, start: nat, size: nat)
    requires v.page > 0
  {
    Readable(v, start, size) && forall i :: start <= i < start + size ==> !Missing(v, i)
  }

  /** The file of m ends at e, which a round that starts before e runs into. */
  ghost predicate EndsAt(v: View, m: MapInfo, start: nat, e: nat) {
    m in AllMaps(v) && m.Contains(e) && m.vaddr < e && start < e && m.offset + (e - m.vaddr) == FileLength(v, m)
  }

  /** Complete up to a file's early end at e, and from there no longer than the zeros of the map's last page. */
  ghost predicate ZeroFilled(v: View, start: nat, size: nat)
    requires v.page > 0
  {
    exists m, e :: FillsFrom(v, m, start, size, e)
  }

  ghost predicate FillsFrom(v: View, m: MapInfo, start: nat, size: nat, e: nat)
    requires v.page > 0
  {
    EndsAt(v, m, start, e) && e < start + size <= e + Tail(m.memsz, v.page) && Complete(v, start, e - start)
  }

  // ---------- what the loop knows ----------

  /** A short file's end that zeros would follow. */
  ghost predicate Edge(v: View, start: nat, a: nat)
    requires v.page > 0
  {
    exists m :: EndsAt(v, m, start, a) && Tail(m.memsz, v.page) > 0
  }

  /** Where a right round can leave off. */
  ghost predicate Parked(v: View, start: nat, a: nat)
    requires v.page > 0
  {
    (Tail(a, v.page) == 0 || (InMap(v, a) && Missing(v, a))) && !Edge(v, start, a)
  }

  /** Everything read so far is right. */
  ghost predicate Right(v: View, start: nat, size: nat, got: seq<byte>)
    requires v.page > 0
  {
    AllRight(v, start, got) && (got != [] ==> InMap(v, start) && (|got| == size || Parked(v, start, start + |got|)))
  }

  /** Right bytes up to the end of m's file, then zeros. */
  ghost predicate Filled(v: View, m: MapInfo, e: nat, start: nat, size: nat, got: seq<byte>)
    requires v.page > 0
  {
    && EndsAt(v, m, start, e) && InMap(v, start) && e < start + |got| && |got| <= size
    && AllRight(v, start, got[..e - start]) && got[e - start..] == Zeros(start + |got| - e)
    && start + |got| <= e + Tail(m.memsz, v.page) && (|got| == size || start + |got| == e + Tail(m.memsz, v.page))
  }

  ghost predicate Progress(v: View, start: nat, size: nat, got: seq<byte>)
    requires v.page > 0
  {
    Right(v, start, size, got) || exists m, e :: Filled(v, m, e, start, size, got)
  }

  // ---------- facts about ends and edges ----------

  lemma EndIsMissing(v: View, m: MapInfo, start: nat, e: nat)
    requires Laid(v) && EndsAt(v, m, start, e)
    ensures Missing(v, e) && InMap(v, e) && Extends(v, m, e)
  {
  }

  lemma EdgeAt(v: View, m: MapInfo, start: nat, a: nat)
    requires v.page > 0 && EndsAt(v, m, start, a) && Tail(m.memsz, v.page) > 0
    ensures Edge(v, start, a)
  {
  }

  /** No file ends with zeros to follow where another map's padded extent ends. */
  lemma NoEdgeAtPaddedEnd(v: View, m: MapInfo, start: nat, addr: nat)
    requires Laid(v) && m in AllMaps(v) && m.Contains(addr)
    ensures !Edge(v, start, PaddedEnd(v, m))
  {
    var a := PaddedEnd(v, m);
    forall n
      ensures !EndsAt(v, n, start, a)
    {
      if EndsAt(v, n, start, a) {
        assert Extends(v, n, a - 1) && Extends(v, m, a - 1);
        SamePadded(v, m, n, a - 1);
      }
    }
  }

  lemma NoEdgeWithoutTail(v: View, m: MapInfo, start: nat, a: nat)
    requires Laid(v) && m in AllMaps(v) && m.Contains(a) && Tail(m.memsz, v.page) == 0
    ensures !Edge(v, start, a)
  {
    forall n | EndsAt(v, n, start, a)
      ensures n == m
    {
      assert Extends(v, n, a) && Extends(v, m, a);
      SamePadded(v, m, n, a);
    }
  }

  // ---------- a round after right bytes ----------

  lemma RightThenFull(v: View, start: nat, size: nat, got: seq<byte>, m: MapInfo, r: seq<byte>)
    requires Laid(v) && Right(v, start, size, got) && |got| < size && m in AllMaps(v) && m.Contains(start + |got|)
    requires r != [] && AllRight(v, start + |got|, r) && (|got| + |r| == size || start + |got| + |r| == PaddedEnd(v, m))
    ensures Right(v, start, size, got + r)
  {
    AllRightConcat(v, start, got, r);
    PaddedEndOnPage(v, m);
    NoEdgeAtPaddedEnd(v, m, start, start + |got|);
    assert got == [] ==> InMap(v, start);
  }

  /** A short file without a page tail: right so far, and the next round starts where the byte is missing. */
  lemma RightThenShort(v: View, start: nat, size: nat, got: seq<byte>, m: MapInfo, r: seq<byte>, e: nat)
    requires Laid(v) && Right(v, start, size, got) && |got| < size && EndsAt(v, m, start, e) && m.Contains(start + |got|)
    requires r != [] && AllRight(v, start + |got|, r) && start + |got| + |r| == e && Tail(m.memsz, v.page) == 0
    ensures Right(v, start, size, got + r)
  {
    AllRightConcat(v, start, got, r);
    EndIsMissing(v, m, start, e);
    NoEdgeWithoutTail(v, m, start, e);
    assert got == [] ==> InMap(v, start);
  }

  /** A short file with a page tail: the zeros begin. */
  lemma RightThenZeros(v: View, start: nat, size: nat, got: seq<byte>, m: MapInfo, d: seq<byte>, e: nat)
    requires Laid(v) && Right(v, start, size, got) && |got| < size && EndsAt(v, m, start, e) && m.Contains(start + |got|)
    requires d != [] && AllRight(v, start + |got|, d) && start + |got| + |d| == e < start + size && Tail(m.memsz, v.page) > 0
    ensures var z := Min(size - |got| - |d|, Tail(m.memsz, v.page)); Filled(v, m, e, start, size, got + (d + Zeros(z)))
  {
    var z := Min(size - |got| - |d|, Tail(m.memsz, v.page));
    var more := got + (d + Zeros(z));
    AllRightConcat(v, start, got, d);
    assert more[..e - start] == got + d && more[e - start..] == Zeros(z);
    assert got == [] ==> InMap(v, start);
  }

  /** A round that delivers something moves the loop forward. */
  lemma RightStep(v: View, start: nat, size: nat, got: seq<byte>, addr: nat, resid: nat)
    requires Laid(v) && Right(v, start, size, got) && addr == start + |got| && resid == size - |got| && resid > 0
    requires Round(v, addr, resid) != []
    ensures Progress(v, start, size, got + Round(v, addr, resid))
  {
    RoundStarts(v, addr, resid);
    var m :| m in AllMaps(v) && HasByte(v, m, addr) && Round(v, addr, resid) == MapBytes(v.files, v.page, m, addr, resid);
    if m.offset + (addr - m.vaddr) + Min(resid, m.memsz - (addr - m.vaddr)) <= FileLength(v, m) {
      FullStepOn(v, start, size, got, m, addr, resid);
    } else {
      ShortStepOn(v, start, size, got, m, addr, resid);
    }
  }

  lemma FullStepOn(v: View, start: nat, size: nat, got: seq<byte>, m: MapInfo, addr: nat, resid: nat)
    requires Laid(v) && Right(v, start, size, got) && addr == start + |got| && resid == size - |got| && resid > 0
    requires m in AllMaps(v) && HasByte(v, m, addr)
    requires m.offset + (addr - m.vaddr) + Min(resid, m.memsz - (addr - m.vaddr)) <= FileLength(v, m)
    ensures Progress(v, start, size, got + MapBytes(v.files, v.page, m, addr, resid))
  {
    FullRound(v, m, addr, resid);
    RightThenFull(v, start, size, got, m, MapBytes(v.files, v.page, m, addr, resid));
  }

  lemma ShortStepOn(v: View, start: nat, size: nat, got: seq<byte>, m: MapInfo, addr: nat, resid: nat)
    requires Laid(v) && Right(v, start, size, got) && addr == start + |got| && resid == size - |got| && resid > 0
    requires m in AllMaps(v) && HasByte(v, m, addr)
    requires FileLength(v, m) < m.offset + (addr - m.vaddr) + Min(resid, m.memsz - (addr - m.vaddr))
    ensures Progress(v, start, size, got + MapBytes(v.files, v.page, m, addr, resid))
  {
    var off := m.offset + (addr - m.vaddr);
    var e := addr + (FileLength(v, m) - off);
    assert EndsAt(v, m, start, e);
    ShortRound(v, m, addr, resid, e);
    ShortStep(v, start, size, got, m, v.files[m.fd][off..], e);
  }

  lemma ShortStep(v: View, start: nat, size: nat, got: seq<byte>, m: MapInfo, d: seq<byte>, e: nat)
    requires Laid(v) && Right(v, start, size, got) && |got| < size && EndsAt(v, m, start, e) && m.Contains(start + |got|)
    requires d != [] && AllRight(v, start + |got|, d) && start + |got| + |d| == e < start + size
    ensures Progress(v, start, size, got + (d + Zeros(Min(size - |got| - |d|, Tail(m.memsz, v.page)))))
  {
    var z := Min(size - |got| - |d|, Tail(m.memsz, v.page));
    if z == 0 {
      assert d + Zeros(z) == d;
      RightThenShort(v, start, size, got, m, d, e);
    } else {
      RightThenZeros(v, start, size, got, m, d, e);
    }
  }

  // ---------- where the loop stops ----------

  lemma RightUpTo(v: View, start: nat, s: seq<byte>, i: nat)
    requires Laid(v) && AllRight(v, start, s) && start <= i < start + |s|
    ensures Covered(v, i) && !Missing(v, i)
  {
    assert RightByte(v, start + (i - start), s[i - start]);
    RightIsThere(v, i, s[i - start]);
  }

  /** At a place where a round delivers nothing, the range is incomplete. */
  lemma StopIncomplete(v: View, start: nat, size: nat, got: seq<byte>)
    requires Laid(v) && Right(v, start, size, got) && |got| < size
    requires !InMap(v, start + |got|) || Missing(v, start + |got|)
    ensures forall n :: |got| < n ==> !Complete(v, start, n)
  {
    var a := start + |got|;
    forall n | |got| < n
      ensures !Complete(v, start, n)
    {
      if Covered(v, a) && got != [] && Tail(a, v.page) == 0 {
        BoundaryCovered(v, a);
      }
    }
  }

  lemma StopUnfilled(v: View, start: nat, size: nat, got: seq<byte>, m: MapInfo, e: nat)
    requires Laid(v) && Right(v, start, size, got) && |got| < size
    requires !InMap(v, start + |got|) || Missing(v, start + |got|)
    ensures !FillsFrom(v, m, start, size, e)
  {
    if FillsFrom(v, m, start, size, e) {
      StopIncomplete(v, start, size, got);
      EndIsMissing(v, m, start, e);
      if e < start + |got| {
        RightUpTo(v, start, got, e);
      } else {
        EdgeAt(v, m, start, e);
      }
    }
  }

  /** Zeros that ran out before the request: the range is neither complete nor fillable. */
  lemma FilledStops(v: View, m: MapInfo, e: nat, start: nat, size: nat, got: seq<byte>)
    requires Laid(v) && Filled(v, m, e, start, size, got) && |got| < size
    ensures !Complete(v, start, size) && !ZeroFilled(v, start, size)
  {
    EndIsMissing(v, m, start, e);
    forall n, f: nat
      ensures !FillsFrom(v, n, start, size, f)
    {
      if FillsFrom(v, n, start, size, f) {
        EndIsMissing(v, n, start, f);
        if f < e {
          RightUpTo(v, start, got[..e - start], f);
        } else {
          assert f == e;
          SamePadded(v, m, n, e);
        }
      }
    }
  }

  /** After zeros the next round delivers nothing. */
  lemma FilledThenNothing(v: View, m: MapInfo, e: nat, start: nat, size: nat, got: seq<byte>)
    requires Laid(v) && Filled(v, m, e, start, size, got) && |got| < size
    ensures Round(v, start + |got|, size - |got|) == []
  {
    var a := start + |got|;
    assert Extends(v, m, a);
    MissingIn(v, m, a);
    RoundStarts(v, a, size - |got|);
  }

  // ---------- the loop ----------

  /** One round: it moves on, or shows that the read cannot succeed. */
  lemma ProgressStep(v: View, start: nat, size: nat, got: seq<byte>, addr: nat, resid: nat)
    requires Laid(v) && Progress(v, start, size, got) && addr == start + |got| && resid == size - |got| && resid > 0
    ensures Round(v, addr, resid) != [] ==> Progress(v, start, size, got + Round(v, addr, resid))
    ensures Round(v, addr, resid) == [] ==> !Complete(v, start, size) && !ZeroFilled(v, start, size)
  {
    if Right(v, start, size, got) {
      if Round(v, addr, resid) == [] {
        RightStops(v, start, size, got, addr, resid);
      } else {
        RightStep(v, start, size, got, addr, resid);
      }
    } else {
      var m, e :| Filled(v, m, e, start, size, got);
      FilledThenNothing(v, m, e, start, size, got);
      FilledStops(v, m, e, start, size, got);
    }
  }

  lemma RightStops(v: View, start: nat, size: nat, got: seq<byte>, addr: nat, resid: nat)
    requires Laid(v) && Right(v, start, size, got) && addr == start + |got| && resid == size - |got| && resid > 0
    requires Round(v, addr, resid) == []
    ensures !Complete(v, start, size) && !ZeroFilled(v, start, size)
  {
    RoundStarts(v, addr, resid);
    StopIncomplete(v, start, size, got);
    forall m, e: nat
      ensures !FillsFrom(v, m, start, size, e)
    {
      StopUnfilled(v, start, size, got, m, e);
    }
  }

  lemma RightIsComplete(v: View, start: nat, size: nat, got: seq<byte>)
    requires Laid(v) && AllRight(v, start, got) && |got| == size && (got != [] ==> InMap(v, start))
    ensures Complete(v, start, size)
  {
    forall i | start <= i < start + size
      ensures Covered(v, i) && !Missing(v, i)
    {
      RightUpTo(v, start, got, i);
    }
  }

  lemma FilledIsZeroFilled(v: View, m: MapInfo, e: nat, start: nat, size: nat, got: seq<byte>)
    requires Laid(v) && Filled(v, m, e, start, size, got) && |got| == size
    ensures ZeroFilled(v, start, size) && !Complete(v, start, size) && !AllRight(v, start, got)
  {
    RightIsComplete(v, start, e - start, got[..e - start]);
    assert FillsFrom(v, m, start, size, e);
    EndIsMissing(v, m, start, e);
    if AllRight(v, start, got) {
      RightUpTo(v, start, got, e);
    }
  }

  /** The end of the loop: complete and right, or zero-filled and wrong. */
  lemma LoopEnds(v: View, start: nat, size: nat, got: seq<byte>)
    requires Laid(v) && Progress(v, start, size, got) && |got| == size
    ensures Complete(v, start, size) || ZeroFilled(v, start, size)
    ensures AllRight(v, start, got) <==> Complete(v, start, size)
    ensures !Complete(v, start, size) ==> exists m, e :: Filled(v, m, e, start, size, got)
  {
    if Right(v, start, size, got) {
      RightIsComplete(v, start, size, got);
    } else {
      var m, e :| Filled(v, m, e, start, size, got);
      FilledIsZeroFilled(v, m, e, start, size, got);
    }
  }

  // ---------- fully backed maps ----------

  /** With full files only the extent of the maps matters. */
  lemma BackedIsReadable(v: View, start: nat, size: nat)
    requires WellFormed(v)
    ensures Complete(v, start, size) <==> Readable(v, start, size)
    ensures !ZeroFilled(v, start, size)
  {
    forall i: nat
      ensures !Missing(v, i)
    {
      assert forall m :: m in AllMaps(v) && m.Contains(i) ==> HasByte(v, m, i);
    }
    forall m, e: nat
      ensures !FillsFrom(v, m, start, size, e)
    {
      if FillsFrom(v, m, start, size, e) {
        EndIsMissing(v, m, start, e);
      }
    }
  }

  /** A round on fully backed maps: right bytes iff the address is mapped, up to the request or a page boundary. */
  lemma RoundExact(v: View, addr: nat, resid: nat)
    requires WellFormed(v) && resid > 0
    ensures Round(v, addr, resid) == [] <==> !InMap(v, addr)
    ensures AllRight(v, addr, Round(v, addr, resid))
    ensures Round(v, addr, resid) != [] ==>
              |Round(v, addr, resid)| == resid || Tail(addr + |Round(v, addr, resid)|, v.page) == 0
  {
    RoundStarts(v, addr, resid);
    if Round(v, addr, resid) != [] {
      var m :| m in AllMaps(v) && HasByte(v, m, addr) && Round(v, addr, resid) == MapBytes(v.files, v.page, m, addr, resid);
      assert MapBacked(v, m);
      FullRound(v, m, addr, resid);
      PaddedEndOnPage(v, m);
    }
  }

  /** One map and the file under it. */
  function OneMap(m: MapInfo, file: seq<byte>, page: nat): View { View([m], [], map[m.fd := file], page) }

  lemma OneMapIsLaid(m: MapInfo, file: seq<byte>, page: nat)
    requires page > 0 && MapPlaced(OneMap(m, file, page), m)
    ensures Laid(OneMap(m, file, page)) && AllMaps(OneMap(m, file, page)) == [m]
  {
  }

  /** A file that ends inside the only map: a read across its end succeeds as far as the page tail reaches. */
  lemma ShortFileReadsZeros(m: MapInfo, file: seq<byte>, page: nat, size: nat)
    requires page > 0 && MapPlaced(OneMap(m, file, page), m) && m.offset < |file| < m.offset + m.memsz
    requires |file| - m.offset < size <= |file| - m.offset + Tail(m.memsz, page)
    ensures var v := OneMap(m, file, page); Laid(v) && ZeroFilled(v, m.vaddr, size) && !Complete(v, m.vaddr, size)
  {
    var v, have := OneMap(m, file, page), |file| - m.offset;
    var e := m.vaddr + have;
    OneMapIsLaid(m, file, page);
    EndIsMissing(v, m, m.vaddr, e);
    FileBytesRight(v, m, m.vaddr, have);
    RightIsComplete(v, m.vaddr, have, file[m.offset..m.offset + have]);
    assert FillsFrom(v, m, m.vaddr, size, e);
  }

  /** Two bytes of file under a map of ten in a page of sixteen: eight bytes are read, six of them wrongly zero. */
  lemma TwoBytesOfTen()
    ensures var v := OneMap(MapInfo(3, 0, 0, 10), [7, 7], 16); Laid(v) && ZeroFilled(v, 0, 8) && !Complete(v, 0, 8)
  {
    assert Tail(10, 16) == 6;
    ShortFileReadsZeros(MapInfo(3, 0, 0, 10), [7, 7], 16, 8);
  }
}
