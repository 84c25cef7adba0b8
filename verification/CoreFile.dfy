/** The core file reader's state and operations: the map list, its sorted index, lookup and read. */
module CoreFile {
  import opened Options
  import opened Octets
  import opened CoreMaps
  import opened CoreRead
  import opened CoreLoop

  /** `pread` into a buffer at position pos. */
  method PreadInto(files: Files, fd: int, buf: array<byte>, pos: nat, len: nat, off: nat) returns (n: nat)
    requires pos + len <= buf.Length
    modifies buf
    ensures n == |Pread(files, fd, len, off)|
    ensures buf[..pos + n] == old(buf[..pos]) + Pread(files, fd, len, off)
    ensures forall i :: pos + n <= i < buf.Length ==> buf[i] == old(buf[i])
  {
    var data := Pread(files, fd, len, off);
    n := |data|;
    forall i | 0 <= i < n {
      buf[pos + i] := data[i];
    }
  }

  method Memset(buf: array<byte>, pos: nat, n: nat)
    requires pos + n <= buf.Length
    modifies buf
    ensures buf[..pos + n] == old(buf[..pos]) + Zeros(n)
    ensures forall i :: pos + n <= i < buf.Length ==> buf[i] == old(buf[i])
  {
    forall i | 0 <= i < n {
      buf[pos + i] := 0;
    }
  }

  class CoreData {
    var maps: seq<MapInfo>            // the map list, head first
    var numMaps: nat
    var classShareMaps: seq<MapInfo>
    var mapArray: array<MapInfo>      // the index
    const files: Files
    const pageSize: nat

    constructor (files: Files, pageSize: nat)
      requires pageSize > 0
      ensures maps == [] && numMaps == 0 && classShareMaps == [] && this.files == files && this.pageSize == pageSize
      ensures Valid() && fresh(mapArray)
    {
      this.files, this.pageSize := files, pageSize;
      maps, numMaps, classShareMaps := [], 0, [];
      mapArray := new MapInfo[0];
    }

    ghost predicate Valid()
      reads this
    {
      numMaps == |maps| && pageSize > 0
    }

    /** The index is current: no map was added since it was last sorted. */
    ghost predicate Indexed()
      reads this, mapArray
    {
      mapArray.Length == numMaps && Sorted(mapArray[..]) && multiset(mapArray[..]) == multiset(maps)
    }

    ghost function CurrentView(): View
      reads this, mapArray
    {
      View(mapArray[..], classShareMaps, files, pageSize)
    }

    /** `memory` is whether the allocation succeeds, here and below. */
    method AddMapInfo(m: MapInfo, memory: bool) returns (r: Option<MapInfo>)
      requires Valid()
      modifies this`maps, this`numMaps
      ensures Valid()
      ensures if memory then r == Some(m) && maps == [m] + old(maps) else r == None && maps == old(maps)
    {
      if !memory {
        return None;
      }
      maps := [m] + maps;
      numMaps := numMaps + 1;
      return Some(m);
    }

    method AddClassShareMapInfo(m: MapInfo, memory: bool) returns (r: Option<MapInfo>)
      modifies this`classShareMaps
      ensures if memory then r == Some(m) && classShareMaps == [m] + old(classShareMaps)
              else r == None && classShareMaps == old(classShareMaps)
    {
      if !memory {
        return None;
      }
      classShareMaps := [m] + classShareMaps;
      return Some(m);
    }

    method SortMapArray(memory: bool) returns (ok: bool)
      requires Valid()
      modifies this`mapArray
      ensures Valid() && ok == memory
      ensures if ok then Indexed() && fresh(mapArray) else mapArray == old(mapArray)
    {
      if !memory {
        return false;
      }
      var array_ := new MapInfo[numMaps];
      var i := 0;
      var rest := maps;
      while rest != []
        invariant 0 <= i <= numMaps && rest == maps[i..]
        invariant array_[..i] == maps[..i]
      {
        array_[i] := rest[0];
        i := i + 1;
        rest := rest[1..];
      }
      assert array_[..] == maps;
      Qsort(array_);
      mapArray := array_;
      return true;
    }

    /** Binary search for the map of an address, with the class-share maps as a fallback. */
    method CoreLookup(addr: nat) returns (r: Option<MapInfo>)
      requires Valid() && Indexed() && numMaps > 0
      ensures r == Lookup(mapArray[..], classShareMaps, addr)
      ensures Disjoint(maps) ==> r == Scan(maps, classShareMaps, addr)
    {
      if Disjoint(maps) {
        IndexAgreesWithScan(maps, mapArray[..], classShareMaps, addr);
      }
      var lo, hi := 0, numMaps - 1;
      while hi - lo > 1
        invariant 0 <= lo <= hi < numMaps
        invariant lo == 0 || mapArray[lo].vaddr <= addr
        invariant hi == numMaps - 1 || addr < mapArray[hi].vaddr
      {
        var mid := (lo + hi) / 2;
        if addr >= mapArray[mid].vaddr {
          lo := mid;
        } else {
          hi := mid;
        }
      }
      var mp: MapInfo;
      if addr < mapArray[hi].vaddr {
        mp := mapArray[lo];
        assert hi == lo || hi == lo + 1;
        if hi == lo {
          assert lo == 0;
        }
        CandidateAt(mapArray[..], addr, lo);
      } else {
        mp := mapArray[hi];
        CandidateAt(mapArray[..], addr, hi);
      }
      if addr >= mp.vaddr && addr < mp.vaddr + mp.memsz {
        return Some(mp);
      }
      var share := classShareMaps;
      while share != []
        invariant FirstContaining(share, addr) == FirstContaining(classShareMaps, addr)
      {
        if share[0].Contains(addr) {
          return Some(share[0]);
        }
        share := share[1..];
      }
      return None;
    }

    /** One round of the read loop on map m: the file bytes, then the zeros of its last page. */
    method ReadMap(m: MapInfo, addr: nat, buf: array<byte>, pos: nat, resid: nat) returns (n: nat)
      requires pageSize > 0 && m.Contains(addr) && pos + resid <= buf.Length
      modifies buf
      ensures var r := MapBytes(files, pageSize, m, addr, resid);
              n == |r| && buf[..pos + n] == old(buf[..pos]) + r
      ensures forall i :: pos + n <= i < buf.Length ==> buf[i] == old(buf[i])
    {
      var mapoff := addr - m.vaddr;
      var len := PreadInto(files, m.fd, buf, pos, Min(resid, m.memsz - mapoff), m.offset + mapoff);
      n := len;
      var rem := m.memsz % pageSize;
      TailIsRemainder(m.memsz, pageSize);
      if len > 0 && rem > 0 {
        len := Min(resid - n, pageSize - rem);
        Memset(buf, pos + n, len);
        n := n + len;
      }
    }

    /** One round of the read loop at addr. */
    method ReadRound(addr: nat, buf: array<byte>, pos: nat, resid: nat) returns (n: nat)
      requires Valid() && Indexed() && numMaps > 0 && pos + resid <= buf.Length
      requires buf as object != mapArray as object
      modifies buf
      ensures var r := Round(old(CurrentView()), addr, resid); n == |r| && buf[..pos + n] == old(buf[..pos]) + r
      ensures forall i :: pos + n <= i < buf.Length ==> buf[i] == old(buf[i])
    {
      var mp := CoreLookup(addr);
      if mp.None? {
        return 0;
      }
      n := ReadMap(mp.value, addr, buf, pos, resid);
    }

    /** A round moves the read forward, or shows that it cannot succeed. */
    method ReadStep(start: nat, buf: array<byte>, size: nat, addr: nat, pos: nat, resid: nat) returns (n: nat)
      requires Valid() && Indexed() && numMaps > 0 && pos + resid == size <= buf.Length && addr == start + pos && resid > 0
      requires buf as object != mapArray as object
      requires Laid(CurrentView()) ==> Progress(CurrentView(), start, size, buf[..pos])
      modifies buf
      ensures n <= resid && forall i :: size <= i < buf.Length ==> buf[i] == old(buf[i])
      ensures Laid(old(CurrentView())) && n > 0 ==> Progress(old(CurrentView()), start, size, buf[..pos + n])
      ensures Laid(old(CurrentView())) && n == 0 ==>
                !Complete(old(CurrentView()), start, size) && !ZeroFilled(old(CurrentView()), start, size)
    {
      ghost var v, got := CurrentView(), buf[..pos];
      n := ReadRound(addr, buf, pos, resid);
      if Laid(v) {
        ProgressStep(v, start, size, got, addr, resid);
        assert buf[..pos + n] == got + Round(v, addr, resid);
      }
    }

    /** The loop of `core_read_data`: fill `buf` with `size` bytes of debuggee memory at `start`. */
    method ReadLoop(start: nat, buf: array<byte>, size: nat) returns (ok: bool)
      requires Valid() && Indexed() && numMaps > 0 && size <= buf.Length && start + size <= ADDRESS_SPACE
      requires buf as object != mapArray as object
      modifies buf
      ensures Laid(old(CurrentView())) ==>
                (ok <==> Complete(old(CurrentView()), start, size) || ZeroFilled(old(CurrentView()), start, size))
      ensures Laid(old(CurrentView())) && ok ==> Progress(old(CurrentView()), start, size, buf[..size])
      ensures forall i :: size <= i < buf.Length ==> buf[i] == old(buf[i])
    {
      ghost var v := CurrentView();
      var resid: nat, addr: nat, pos: nat := size, start, 0;
      while resid != 0
        invariant CurrentView() == v
        invariant pos + resid == size && addr == start + pos
        invariant Laid(v) ==> Progress(v, start, size, buf[..pos])
        invariant forall i :: size <= i < buf.Length ==> buf[i] == old(buf[i])
        decreases resid
      {
        var n := ReadStep(start, buf, size, addr, pos, resid);
        if n == 0 {
          return false;
        }
        resid, addr, pos := resid - n, addr + n, pos + n;
      }
      if Laid(v) {
        LoopEnds(v, start, size, buf[..size]);
      }
      return true;
    }

    /** `core_read_data`. Files of any length: it succeeds iff the range is complete or zero-filled, and the
        bytes are right iff the range is complete; otherwise they are right up to the early end of a file
        and zero from there on. Fully backed maps: it succeeds iff the range is readable, always rightly. */
    method CoreReadData(start: nat, buf: array<byte>, size: nat) returns (ok: bool)
      requires Valid() && Indexed() && numMaps > 0 && size <= buf.Length && start + size <= ADDRESS_SPACE
      requires buf as object != mapArray as object
      modifies buf
      ensures var v := old(CurrentView());
              Laid(v) ==> (ok <==> Complete(v, start, size) || ZeroFilled(v, start, size))
      ensures var v := old(CurrentView());
              Laid(v) && ok ==> (AllRight(v, start, buf[..size]) <==> Complete(v, start, size))
      ensures var v := old(CurrentView());
              Laid(v) && ok && !Complete(v, start, size) ==> exists m, e :: Filled(v, m, e, start, size, buf[..size])
      ensures var v := old(CurrentView());
              WellFormed(v) ==> (ok <==> Readable(v, start, size)) && (ok ==> AllRight(v, start, buf[..size]))
      ensures forall i :: size <= i < buf.Length ==> buf[i] == old(buf[i])
    {
      ghost var v := CurrentView();
      ok := ReadLoop(start, buf, size);
      if Laid(v) && ok {
        LoopEnds(v, start, size, buf[..size]);
      }
      if WellFormed(v) {
        BackedIsReadable(v, start, size);
      }
    }
  }
}
