/** The emitters: C1 macro-assembler methods that append the clearing code to the code buffer. */
module C1Assembler {
  import Words
  import opened Machine
  import opened Zeroing
  import opened ObjectInit

  const THRESHOLD: nat := 128   // 16 words: explicit stores up to here

  /** A size known at run time in a register, or a constant. */
  datatype Size = InRegister(r: Reg) | Constant(bytes: nat)

  /** What `initialize_object` emits after the header, at code position base. */
  function ObjectCode(base: nat, obj: Reg, size: Size, hdr: nat, t1: Reg, t2: Reg): seq<Instr> {
    match size
    case InRegister(r) => [AddImm(t2, r, 0)] + BodyCode(base + 1, obj, t2, hdr, t1)
    case Constant(con) =>
      if con <= THRESHOLD then SmallCode(obj, hdr, con)
      else if con > hdr then LargeCode(base, obj, hdr, con, t2)
      else []
  }

  class C1MacroAssembler {
    var code: seq<Instr>

    constructor ()
      ensures code == []
    {
      code := [];
    }

    method Emit(i: Instr)
      modifies this
      ensures code == old(code) + [i]
    {
      code := code + [i];
    }

    /** The unrolled stores, one per round of the emitting loop. */
    method EmitStores(t1: Reg)
      modifies this
      ensures code == old(code) + Stores(t1)
    {
      var i := -8;
      while i < 0
        invariant -8 <= i <= 0
        invariant code == old(code) + Stores(t1)[..i + 8]
      {
        Emit(StrZr(t1, i * 8));
        assert Stores(t1)[..i + 9] == Stores(t1)[..i + 8] + [StrZr(t1, i * 8)];
        i := i + 1;
      }
    }

    /** The entry label is not bound yet when `adr` refers to it, so it refers to itself. */
    method EmitPrologue(addr: Reg, len: Reg, t1: Reg) returns (patchAt: nat)
      modifies this
      ensures patchAt == |old(code)| + 4 && code == old(code) + PrologueTo(patchAt, addr, len, t1)
    {
      Emit(Lsr(len, len, 3));
      Emit(AndImm(RSCRATCH1, len, UNROLL - 1));
      Emit(SubReg(len, len, RSCRATCH1, 0));
      Emit(AddReg(t1, addr, RSCRATCH1, 3));
      patchAt := |code|;
      Emit(Adr(RSCRATCH2, patchAt));
      Emit(SubReg(RSCRATCH2, RSCRATCH2, RSCRATCH1, 2));
      Emit(Br(RSCRATCH2));
    }

    /** Binding the entry label patches the `adr`. */
    method ZeroMemory(addr: Reg, len: Reg, t1: Reg)
      modifies this
      ensures code == old(code) + ZeroMemoryCode(|old(code)|, addr, len, t1)
    {
      ghost var before := code;
      var patchAt := EmitPrologue(addr, len, t1);
      var loop := |code|;
      Emit(SubImm(len, len, UNROLL));
      EmitStores(t1);
      code := code[patchAt := Adr(RSCRATCH2, |code|)];
      assert code == before + (Prologue(|before|, addr, len, t1) + [SubImm(len, len, 8)] + Stores(t1));
      Emit(AddImm(t1, t1, UNROLL * 8));
      Emit(Cbnz(len, loop));
    }

    /** `done` is bound at the end; the forward branch to it is patched then. */
    method InitializeBody(obj: Reg, len: Reg, hdr: nat, t1: Reg)
      modifies this
      ensures code == old(code) + BodyCode(|old(code)|, obj, len, hdr, t1)
    {
      ghost var before := code;
      Emit(SubsImm(len, len, hdr));
      var patchAt := |code|;
      Emit(Beq(patchAt));
      if hdr != 0 {
        Emit(AddImm(obj, obj, hdr));
      }
      ZeroMemory(obj, len, t1);
      if hdr != 0 {
        Emit(SubImm(obj, obj, hdr));
      }
      code := code[patchAt := Beq(|code|)];
      assert code == before + BodyCode(|before|, obj, len, hdr, t1);
    }

    method EmitPairs(obj: Reg, start: nat, con: nat)
      modifies this
      ensures code == old(code) + Pairs(obj, start, con)
    {
      var i := start;
      ghost var before := code;
      while i < con
        invariant before + Pairs(obj, start, con) == code + Pairs(obj, i, con)
        decreases con - i
      {
        assert code + Pairs(obj, i, con) == (code + [StpZr(obj, i)]) + Pairs(obj, i + 16, con);
        Emit(StpZr(obj, i));
        i := i + 16;
      }
    }

    method EmitSmall(obj: Reg, hdr: nat, con: nat)
      modifies this
      ensures code == old(code) + SmallCode(obj, hdr, con)
    {
      var i := hdr;
      if i < con && con % 16 != 0 {
        Emit(StrZr(obj, i));
        i := i + 8;
      }
      EmitPairs(obj, i, con);
    }

    /** The loop form: `entry_point` is bound in the middle of the unrolled stores. */
    method EmitLarge(obj: Reg, hdr: nat, con: nat, index: Reg)
      requires hdr < con
      modifies this
      ensures code == old(code) + LargeCode(|old(code)|, obj, hdr, con, index)
    {
      var words := (con - hdr) / 8;
      Emit(MovImm(index, words / 8));
      var remainder := words % UNROLL;
      Emit(AddImm(RSCRATCH1, obj, hdr + remainder * 8));
      var patchAt := |code|;
      Emit(B(patchAt));
      var loop := |code|;
      Emit(SubImm(index, index, 1));
      var entry := |code| + UNROLL - remainder;
      EmitStores(RSCRATCH1);
      code := code[patchAt := B(entry)];
      Emit(AddImm(RSCRATCH1, RSCRATCH1, UNROLL * 8));
      Emit(Cbnz(index, loop));
    }

    method InitializeObject(obj: Reg, size: Size, hdr: nat, t1: Reg, t2: Reg)
      modifies this
      ensures code == old(code) + ObjectCode(|old(code)|, obj, size, hdr, t1, t2)
    {
      match size
      case InRegister(r) =>
        Emit(AddImm(t2, r, 0));
        InitializeBody(obj, t2, hdr, t1);
      case Constant(con) =>
        if con <= THRESHOLD {
          EmitSmall(obj, hdr, con);
        } else if con > hdr {
          EmitLarge(obj, hdr, con, t2);
        }
    }
  }

  // ---------- what the emitted object code clears ----------

  /** The words a constant-size initialisation should clear, and those it does clear. */
  function BodyWords(hdr: nat, con: nat): nat { if con > hdr then (con - hdr) / 8 else 0 }

  function ClearedWords(hdr: nat, con: nat): nat { if con <= THRESHOLD then SmallWords(hdr, con) else BodyWords(hdr, con) }

  /** Running the code emitted for a size in a register clears exactly the words from the header to the size. */
  lemma VariableObjectClears(code: seq<Instr>, base: nat, obj: Reg, r: Reg, hdr: nat, t1: Reg, t2: Reg, s: State, o: nat, size: nat)
    returns (s': State)
    requires BlockAt(code, base, ObjectCode(base, obj, InRegister(r), hdr, t1, t2)) && Distinct(obj, t2, t1)
    requires s.pc == base && s.Get(obj) == o && s.Get(r) == size && hdr <= size && 4 * |code| < Words.WORD
    requires size % 8 == 0 && hdr % 8 == 0 && o + size < Words.WORD
    ensures Reaches(code, s, s') && s'.pc == base + |ObjectCode(base, obj, InRegister(r), hdr, t1, t2)|
    ensures s'.mem == ZeroWords(s.mem, o + hdr, BodyWords(hdr, size)) && s'.Get(obj) == o
  {
    BlockCons(code, base, AddImm(t2, r, 0), BodyCode(base + 1, obj, t2, hdr, t1));
    var s1 := Step(code[s.pc], s);
    ReachesStep(code, s, s1);
    s' := BodyClears(code, base + 1, obj, t2, hdr, t1, s1, o, size);
    ReachesTrans(code, s, s1, s');
  }

  /** Running the code emitted for a constant size clears `ClearedWords` words from the header on. */
  lemma ConstantObjectClears(code: seq<Instr>, base: nat, obj: Reg, con: nat, hdr: nat, t1: Reg, t2: Reg, s: State, o: nat)
    returns (s': State)
    requires BlockAt(code, base, ObjectCode(base, obj, Constant(con), hdr, t1, t2))
    requires obj != t2 && obj != RSCRATCH1 && t2 != RSCRATCH1
    requires s.pc == base && s.Get(obj) == o && con % 8 == 0 && hdr % 8 == 0 && o + hdr + con + 8 < Words.WORD
    ensures Reaches(code, s, s') && s'.pc == base + |ObjectCode(base, obj, Constant(con), hdr, t1, t2)|
    ensures s'.mem == ZeroWords(s.mem, o + hdr, ClearedWords(hdr, con))
    ensures s'.Get(obj) == o
  {
    if con <= THRESHOLD {
      s' := SmallClears(code, base, obj, hdr, con, s, o);
    } else if con > hdr {
      s' := LargeClears(code, base, obj, hdr, con, t2, s, o);
    } else {
      s' := s;
      ReachesRefl(code, s);
    }
  }

  /** It clears exactly the object's body iff the loop form is used, the body is empty, or the header
      is a multiple of two words; otherwise it writes one word past the object. */
  lemma ConstantObjectExact(hdr: nat, con: nat)
    ensures ClearedWords(hdr, con) == BodyWords(hdr, con) <==> con > THRESHOLD || con <= hdr || hdr % 16 == 0
    ensures ClearedWords(hdr, con) <= BodyWords(hdr, con) + 1
  {
  }
}
