/** Reading a live process word by word: `process_read_data` of the Linux agent (`ps_proc.c`). */
module ProcRead {
  import opened Options
  import opened Octets

  const LONG: nat := 8
  const ADDRESS_SPACE: nat := 0x1_0000_0000_0000_0000

  /** The readable memory of the target process. */
  type Target = map<nat, byte>

  /** A word can be peeked when all its bytes are readable. */
  predicate Peekable(t: Target, a: nat) {
    forall k :: a <= k < a + LONG ==> k in t
  }

  function Bytes(t: Target, a: nat): (r: seq<byte>)
    requires Peekable(t, a)
    ensures |r| == LONG && forall k :: 0 <= k < LONG ==> r[k] == t[a + k]
  {
    [t[a], t[a + 1], t[a + 2], t[a + 3], t[a + 4], t[a + 5], t[a + 6], t[a + 7]]
  }

  /** PTRACE_PEEKDATA: the word's bytes in memory order, or an error. */
  method Peek(t: Target, a: nat) returns (r: Option<seq<byte>>)
    ensures r == if Peekable(t, a) then Some(Bytes(t, a)) else None
  {
    if forall k | a <= k < a + LONG :: k in t {
      return Some(Bytes(t, a));
    }
    return None;
  }

  /** Store a whole word into the buffer. */
  method StoreWord(buf: array<byte>, pos: nat, word: seq<byte>)
    requires |word| == LONG && pos + LONG <= buf.Length
    modifies buf
    ensures forall k :: pos <= k < pos + LONG ==> buf[k] == word[k - pos]
    ensures forall k :: 0 <= k < pos || pos + LONG <= k < buf.Length ==> buf[k] == old(buf[k])
  {
    forall k | 0 <= k < LONG {
      buf[pos + k] := word[k];
    }
  }

  /** Clear the low bits of a pointer; `size` is a power of two. */
  function Align(ptr: nat): (r: nat)
    ensures r % LONG == 0 && r <= ptr < r + LONG
  {
    ptr - ptr % LONG
  }

  /** The aligned words a read of [addr, end) touches; an unaligned start is always peeked. */
  ghost predicate Needed(w: nat, addr: nat, end: nat) {
    w % LONG == 0 && addr < w + LONG && (w < end || w < addr)
  }

  ghost predicate AllPeekable(t: Target, addr: nat, end: nat) {
    forall w :: Needed(w, addr, end) ==> Peekable(t, w)
  }

  /** The target holds byte b at address a. */
  predicate Reads(t: Target, a: nat, b: byte) { a in t && t[a] == b }

  /** The first n bytes of buf are the target's bytes at addr, and nothing from `size` on changed. */
  twostate predicate Filled(t: Target, addr: nat, buf: array<byte>, n: nat, size: nat)
    requires n <= size <= buf.Length
    reads buf
  {
    && (forall k :: 0 <= k < n ==> Reads(t, addr + k, buf[k]))
    && (forall k :: size <= k < buf.Length ==> buf[k] == old(buf[k]))
  }

  /** The bytes of the first, partly skipped word. */
  method ReadHead(t: Target, addr: nat, buf: array<byte>, size: nat) returns (ok: bool, aligned: nat)
    requires addr % LONG != 0 && size <= buf.Length
    modifies buf
    ensures ok <==> Peekable(t, Align(addr))
    ensures ok ==> addr <= aligned <= addr + size && (aligned == addr + size || aligned == Align(addr) + LONG)
    ensures ok ==> aligned <= Align(addr) + LONG && Filled(t, addr, buf, aligned - addr, size)
    ensures !ok ==> buf[..] == old(buf[..])
  {
    aligned := Align(addr);
    var rslt := Peek(t, aligned);
    if rslt.None? {
      return false, aligned;
    }
    var ptr, pos := 0, 0;
    while aligned != addr
      invariant aligned <= addr && ptr == aligned - Align(addr)
      decreases addr - aligned
    {
      aligned, ptr := aligned + 1, ptr + 1;
    }
    while aligned % LONG != 0 && aligned < addr + size
      invariant addr <= aligned <= Align(addr) + LONG && aligned <= addr + size
      invariant ptr == aligned - Align(addr) && pos == aligned - addr
      invariant Filled(t, addr, buf, pos, size)
      decreases addr + size - aligned
    {
      buf[pos] := rslt.value[ptr];
      aligned, ptr, pos := aligned + 1, ptr + 1, pos + 1;
    }
    ok := true;
  }

  /** Whole words from an aligned address. */
  method ReadWords(t: Target, addr: nat, buf: array<byte>, size: nat, start: nat) returns (ok: bool, aligned: nat)
    requires addr <= start <= addr + size && size <= buf.Length && (start % LONG == 0 || start == addr + size)
    requires forall k :: 0 <= k < start - addr ==> Reads(t, addr + k, buf[k])
    modifies buf
    ensures start <= aligned <= addr + size && aligned % LONG == start % LONG
    ensures forall w: nat :: start <= w < aligned && w % LONG == 0 ==> Peekable(t, w)
    ensures ok ==> addr + size < aligned + LONG && Filled(t, addr, buf, aligned - addr, size)
    ensures !ok ==> aligned < addr + size && aligned % LONG == 0 && !Peekable(t, aligned)
    ensures forall k :: size <= k < buf.Length ==> buf[k] == old(buf[k])
  {
    var words := (addr + size - start) / LONG;
    aligned := start;
    var pos := start - addr;
    var i := 0;
    while i < words
      invariant 0 <= i <= words && aligned == start + i * LONG && pos == aligned - addr
      invariant aligned <= addr + size && (aligned % LONG == 0 || words == 0)
      invariant Filled(t, addr, buf, pos, size)
      invariant forall w: nat :: start <= w < aligned && w % LONG == 0 ==> Peekable(t, w)
    {
      var rslt := Peek(t, aligned);
      if rslt.None? {
        return false, aligned;
      }
      StoreWord(buf, pos, rslt.value);
      i, pos, aligned := i + 1, pos + LONG, aligned + LONG;
    }
    ok := true;
  }

  /** The first bytes of the last word. */
  method ReadTail(t: Target, addr: nat, buf: array<byte>, size: nat, start: nat) returns (ok: bool)
    requires addr <= start < addr + size < start + LONG && size <= buf.Length
    requires forall k :: 0 <= k < start - addr ==> Reads(t, addr + k, buf[k])
    modifies buf
    ensures ok <==> Peekable(t, start)
    ensures ok ==> Filled(t, addr, buf, size, size)
    ensures forall k :: size <= k < buf.Length ==> buf[k] == old(buf[k])
  {
    var rslt := Peek(t, start);
    if rslt.None? {
      return false;
    }
    var aligned, ptr, pos := start, 0, start - addr;
    while aligned != addr + size
      invariant start <= aligned <= addr + size && ptr == aligned - start && pos == aligned - addr
      invariant Filled(t, addr, buf, pos, size)
      decreases addr + size - aligned
    {
      buf[pos] := rslt.value[ptr];
      aligned, ptr, pos := aligned + 1, ptr + 1, pos + 1;
    }
    return true;
  }

  /** Fills buf with the bytes of [addr, addr + size): the unaligned head, whole words, the partial
      tail. It succeeds iff every word the range touches can be peeked. */
  method ProcessReadData(t: Target, addr: nat, buf: array<byte>, size: nat) returns (ok: bool)
    requires addr + size < ADDRESS_SPACE && size <= buf.Length
    modifies buf
    ensures ok <==> AllPeekable(t, addr, addr + size)
    ensures ok ==> forall i :: 0 <= i < size ==> Reads(t, addr + i, buf[i])
    ensures forall i :: size <= i < buf.Length ==> buf[i] == old(buf[i])
  {
    var aligned := Align(addr);
    if aligned != addr {
      ok, aligned := ReadHead(t, addr, buf, size);
      if !ok {
        assert Needed(Align(addr), addr, addr + size);
        return false;
      }
    }
    ghost var start := aligned;
    ok, aligned := ReadWords(t, addr, buf, size, aligned);
    if !ok {
      assert Needed(aligned, addr, addr + size);
      return false;
    }
    if aligned != addr + size {
      ok := ReadTail(t, addr, buf, size, aligned);
      if !ok {
        assert Needed(aligned, addr, addr + size);
        return false;
      }
    }
    Gather(t, addr, addr + size, start, aligned);
  }

  lemma SameWord(a: nat, b: nat)
    requires a % LONG == 0 && b % LONG == 0 && a < b + LONG && b < a + LONG
    ensures a == b
  {
  }

  /** The head word, the whole words and the tail word are all the words of the range. */
  lemma Gather(t: Target, addr: nat, end: nat, start: nat, stop: nat)
    requires addr <= start <= stop <= end < stop + LONG
    requires if addr % LONG == 0 then start == addr
             else Peekable(t, Align(addr)) && start <= Align(addr) + LONG && (start == end || start == Align(addr) + LONG)
    requires forall w: nat :: start <= w < stop && w % LONG == 0 ==> Peekable(t, w)
    requires stop == end || (stop % LONG == 0 && Peekable(t, stop))
    ensures AllPeekable(t, addr, end)
  {
    forall w: nat | Needed(w, addr, end)
      ensures Peekable(t, w)
    {
      if w < addr {
        SameWord(w, Align(addr));
      } else if w >= stop {
        SameWord(w, stop);
      } else if w < start {
        SameWord(w, Align(addr));
      }
    }
  }

  /** A non-empty read needs exactly the aligned words of its own bytes. */
  lemma NeededWords(t: Target, addr: nat, size: nat)
    requires size > 0
    ensures AllPeekable(t, addr, addr + size) <==> forall a :: addr <= a < addr + size ==> Peekable(t, Align(a))
  {
    if forall a :: addr <= a < addr + size ==> Peekable(t, Align(a)) {
      forall w: nat | Needed(w, addr, addr + size)
        ensures Peekable(t, w)
      {
        var a := if w < addr then addr else w;
        assert Align(a) == w;
      }
    }
    if AllPeekable(t, addr, addr + size) {
      forall a | addr <= a < addr + size
        ensures Peekable(t, Align(a))
      {
        assert Needed(Align(a), addr, addr + size);
      }
    }
  }
}
