/** The two independent computations of an array's allocation size, and the clearing that uses them. */
module ArraySize {
  import opened Options
  import opened Words
  import opened Machine
  import opened Zeroing
  import opened ObjectInit

  const MAX_LENGTH: nat := 0x00FFFFFF

  function Scaled(len: nat, f: nat): nat { len * Pow2(f) }

  /** `allocate_array`: None is the slow case. `len` is the 64-bit register, `f` the element scale. */
  function InlineSize(headerWords: nat, f: nat, len: nat): Option<nat> {
    if len >= MAX_LENGTH then None
    else
      var size := (headerWords * 8 + 7) % WORD;
      var sum := (size + Scaled(len % WORD32, f)) % WORD;
      Some(And(sum, WORD - 8))
  }

  /** The new-array stub: element scale and header size come from the class's layout helper. */
  function StubSize(layoutHelper: nat, len: nat): Option<nat> {
    if len % WORD32 > MAX_LENGTH then None
    else
      var shifted := Scaled(len % WORD32, layoutHelper % 32) % WORD32;
      var hdr := layoutHelper / 0x1_0000 % 0x100;
      Some(And((shifted + hdr + 7) % WORD, WORD - 8))
  }

  /** The layout helper describes arrays with this header and element scale. */
  predicate Describes(layoutHelper: nat, headerWords: nat, f: nat) {
    layoutHelper % 32 == f && layoutHelper / 0x1_0000 % 0x100 == headerWords * 8 && headerWords < 32 && f <= 3
  }

  /** The least multiple of eight that holds the header and the elements. */
  predicate IsArraySize(headerWords: nat, f: nat, len: nat, size: nat) {
    var need := headerWords * 8 + Scaled(len, f);
    size % 8 == 0 && need <= size < need + 8
  }

  lemma ScaleBound(f: nat, len: nat)
    requires f <= 3 && len <= MAX_LENGTH
    ensures Scaled(len, f) < 0x800_0000
  {
    assert Pow2(0) == 1 && Pow2(1) == 2 && Pow2(2) == 4 && Pow2(3) == 8;
  }

  function RoundUp8(x: nat): (r: nat)
    ensures r % 8 == 0 && x <= r < x + 8
  {
    x + 7 - (x + 7) % 8
  }

  lemma {:induction false} InlineValue(headerWords: nat, f: nat, len: nat)
    requires headerWords < 32 && f <= 3 && len < MAX_LENGTH
    ensures InlineSize(headerWords, f, len) == Some(RoundUp8(headerWords * 8 + Scaled(len, f)))
  {
    ScaleBound(f, len);
    SizeOf(headerWords * 8, Scaled(len, f));
    Fits(len, 0);
  }

  lemma Fits(len: nat, sum: nat)
    requires len <= MAX_LENGTH && sum < 0x1000_0000
    ensures len % WORD32 == len && sum % WORD32 == sum && sum % WORD == sum
  {
  }

  /** Masking the sum rounds it up to a multiple of eight. */
  lemma SizeOf(hdr: nat, body: nat)
    requires hdr < 0x100 && body < 0x800_0000
    ensures And(((hdr + 7) % WORD + body) % WORD, WORD - 8) == RoundUp8(hdr + body)
    ensures And((body + hdr + 7) % WORD, WORD - 8) == RoundUp8(hdr + body)
  {
    Fits(0, hdr + 7);
    Fits(0, hdr + 7 + body);
    AlignDown(hdr + 7 + body);
  }

  lemma {:induction false} StubValue(layoutHelper: nat, headerWords: nat, f: nat, len: nat)
    requires Describes(layoutHelper, headerWords, f) && len <= MAX_LENGTH
    ensures StubSize(layoutHelper, len) == Some(RoundUp8(headerWords * 8 + Scaled(len, f)))
  {
    ScaleBound(f, len);
    Fits(len, Scaled(len, f));
    SizeOf(headerWords * 8, Scaled(len, f));
  }

  /** Below the limit, both computations give the least suitable multiple of eight, without 32-bit
      wrap-around; at the limit the inline code is slow and the stub is not. */
  lemma SizesAgree(layoutHelper: nat, headerWords: nat, f: nat, len: nat)
    requires Describes(layoutHelper, headerWords, f) && len < WORD32
    ensures InlineSize(headerWords, f, len).Some? <==> len < MAX_LENGTH
    ensures StubSize(layoutHelper, len).Some? <==> len <= MAX_LENGTH
    ensures InlineSize(headerWords, f, len).Some? ==>
              && StubSize(layoutHelper, len) == InlineSize(headerWords, f, len)
              && IsArraySize(headerWords, f, len, InlineSize(headerWords, f, len).value)
              && InlineSize(headerWords, f, len).value < WORD32
  {
    if len < MAX_LENGTH {
      InlineValue(headerWords, f, len);
      StubValue(layoutHelper, headerWords, f, len);
      ScaleBound(f, len);
    }
  }

  /** An array size is unique, so a caller may compute it either way. */
  lemma ArraySizeUnique(headerWords: nat, f: nat, len: nat, a: nat, b: nat)
    requires IsArraySize(headerWords, f, len, a) && IsArraySize(headerWords, f, len, b)
    ensures a == b
  {
  }

  // ---------- the size instructions ----------

  /** What `allocate_array` emits between the length check and the allocation. */
  function InlineSizeCode(arrSize: Reg, len: Reg, headerWords: nat, f: nat): seq<Instr> {
    [MovImm(arrSize, headerWords * 8 + 7), AddUxtw(arrSize, arrSize, len, f), AndImm(arrSize, arrSize, WORD - 8)]
  }

  /** What the new-array stub emits after loading the layout helper into t1. */
  function StubSizeCode(arrSize: Reg, len: Reg, t1: Reg): seq<Instr> {
    [Lslvw(arrSize, len, t1), Ubfx(t1, t1, 16, 8), AddReg(arrSize, arrSize, t1, 0), AddImm(arrSize, arrSize, 7),
     AndImm(arrSize, arrSize, WORD - 8)]
  }

  lemma ThreeAt(code: seq<Instr>, base: nat, block: seq<Instr>)
    requires BlockAt(code, base, block) && |block| >= 3
    ensures base + 3 <= |code| && code[base] == block[0] && code[base + 1] == block[1] && code[base + 2] == block[2]
  {
    assert code[base + 0] == block[0] && code[base + 1] == block[1] && code[base + 2] == block[2];
  }

  /** Below the length limit the three instructions leave the inline size in the register. */
  lemma InlineSizeRuns(code: seq<Instr>, base: nat, arrSize: Reg, len: Reg, headerWords: nat, f: nat, s: State) returns (s': State)
    requires BlockAt(code, base, InlineSizeCode(arrSize, len, headerWords, f)) && arrSize != len && s.pc == base
    requires InlineSize(headerWords, f, s.Get(len)).Some?
    ensures Reaches(code, s, s') && s'.pc == base + 3 && s'.mem == s.mem
    ensures s'.Get(arrSize) == InlineSize(headerWords, f, s.Get(len)).value
    ensures forall r :: r != arrSize ==> s'.Get(r) == s.Get(r)
  {
    ThreeAt(code, base, InlineSizeCode(arrSize, len, headerWords, f));
    var s1 := Step(code[s.pc], s);
    var s2 := Step(code[s1.pc], s1);
    TwoSteps(code, s, s1, s2);
    assert s2.Get(arrSize) == ((headerWords * 8 + 7) % WORD + Scaled(s.Get(len) % WORD32, f)) % WORD;
    s' := Step(code[s2.pc], s2);
    MaskFits(s2.Get(arrSize));
    ReachesStep(code, s2, s');
    ReachesTrans(code, s, s2, s');
  }

  lemma MaskFits(x: nat)
    requires x < WORD
    ensures And(x, WORD - 8) % WORD == And(x, WORD - 8)
  {
    AlignDown(x);
  }

  /** The stub's five instructions leave the stub size in the register. */
  lemma {:induction false} StubSizeRuns(code: seq<Instr>, base: nat, arrSize: Reg, len: Reg, t1: Reg, s: State) returns (s': State)
    requires BlockAt(code, base, StubSizeCode(arrSize, len, t1)) && arrSize != len && arrSize != t1 && s.pc == base
    requires StubSize(s.Get(t1), s.Get(len)).Some?
    ensures Reaches(code, s, s') && s'.pc == base + 5 && s'.mem == s.mem
    ensures s'.Get(arrSize) == StubSize(s.Get(t1), s.Get(len)).value
    ensures forall r :: r != arrSize && r != t1 ==> s'.Get(r) == s.Get(r)
  {
    var s2 := StubShiftRuns(code, base, arrSize, len, t1, s);
    var helper, n := s.Get(t1), s.Get(len);
    StubSizeIs(helper, n, s2.Get(arrSize), s2.Get(t1));
    s' := StubRoundRuns(code, base, arrSize, len, t1, s2);
    ReachesTrans(code, s, s2, s');
  }

  lemma StubSizeIs(helper: nat, len: nat, shifted: nat, hdr: nat)
    requires StubSize(helper, len).Some? && shifted == Scaled(len % WORD32, helper % 32) % WORD32 && hdr == helper / 0x1_0000 % 0x100
    ensures shifted < WORD32 && hdr < 0x100 && StubSize(helper, len).value == And((shifted + hdr + 7) % WORD, WORD - 8)
  {
  }

  /** The shifted length and the header size. */
  lemma StubShiftRuns(code: seq<Instr>, base: nat, arrSize: Reg, len: Reg, t1: Reg, s: State) returns (s': State)
    requires BlockAt(code, base, StubSizeCode(arrSize, len, t1)) && arrSize != len && arrSize != t1 && s.pc == base
    ensures Reaches(code, s, s') && s'.pc == base + 2 && s'.mem == s.mem
    ensures s'.Get(arrSize) == Scaled(s.Get(len) % WORD32, s.Get(t1) % 32) % WORD32
    ensures s'.Get(t1) == s.Get(t1) / 0x1_0000 % 0x100
    ensures forall r :: r != arrSize && r != t1 ==> s'.Get(r) == s.Get(r)
  {
    ThreeAt(code, base, StubSizeCode(arrSize, len, t1));
    Pow2Add(8, 8);
    assert Pow2(8) == 0x100;
    var s1 := Step(code[s.pc], s);
    s' := Step(code[s1.pc], s1);
    TwoSteps(code, s, s1, s');
  }

  /** The sum, rounded up to a multiple of eight. */
  lemma StubRoundRuns(code: seq<Instr>, base: nat, arrSize: Reg, len: Reg, t1: Reg, s: State) returns (s': State)
    requires BlockAt(code, base, StubSizeCode(arrSize, len, t1)) && arrSize != len && arrSize != t1 && s.pc == base + 2
    requires s.Get(arrSize) < WORD32 && s.Get(t1) < 0x100
    ensures Reaches(code, s, s') && s'.pc == base + 5 && s'.mem == s.mem
    ensures s'.Get(arrSize) == And((s.Get(arrSize) + s.Get(t1) + 7) % WORD, WORD - 8)
    ensures forall r :: r != arrSize && r != t1 ==> s'.Get(r) == s.Get(r)
  {
    var c := StubSizeCode(arrSize, len, t1);
    assert code[base + 2] == c[2] && code[base + 3] == c[3] && code[base + 4] == c[4];
    var s2 := SumRuns(code, arrSize, t1, s);
    s' := Step(code[s2.pc], s2);
    MaskFits(s2.Get(arrSize));
    ReachesStep(code, s2, s');
    ReachesTrans(code, s, s2, s');
  }

  /** The two additions before the mask. */
  lemma SumRuns(code: seq<Instr>, arrSize: Reg, t1: Reg, s: State) returns (s': State)
    requires s.pc + 1 < |code| && code[s.pc] == StubSizeCode(arrSize, t1, t1)[2] && code[s.pc + 1] == StubSizeCode(arrSize, t1, t1)[3]
    requires arrSize != t1 && s.Get(arrSize) < WORD32 && s.Get(t1) < 0x100
    ensures Reaches(code, s, s') && s'.pc == s.pc + 2 && s'.mem == s.mem
    ensures s'.Get(arrSize) == (s.Get(arrSize) + s.Get(t1) + 7) % WORD
    ensures forall r :: r != arrSize && r != t1 ==> s'.Get(r) == s.Get(r)
  {
    assert Pow2(0) == 1;
    var s1 := Step(code[s.pc], s);
    assert s1.Get(arrSize) == s.Get(arrSize) + s.Get(t1) && s1.pc == s.pc + 1;
    s' := Step(code[s1.pc], s1);
    TwoSteps(code, s, s1, s');
  }

  // ---------- clearing ----------

  lemma MultiplesApart(size: int, headerWords: nat)
    requires size % 8 == 0
    ensures (size - headerWords * 8) % 8 == 0
  {
  }

  lemma {:induction false} SizeRange(headerWords: nat, f: nat, len: nat)
    requires headerWords < 32 && f <= 3 && len <= MAX_LENGTH
    ensures var size := RoundUp8(headerWords * 8 + Scaled(len, f));
            IsArraySize(headerWords, f, len, size) && headerWords * 8 <= size < 0x1000_0000 && (size - headerWords * 8) % 8 == 0
  {
    ScaleBound(f, len);
    MultiplesApart(RoundUp8(headerWords * 8 + Scaled(len, f)), headerWords);
  }

  /** The inline path: the body code run with the computed size clears exactly the words from the
      header to the end of the array. */
  lemma {:induction false} InlineArrayCleared(code: seq<Instr>, base: nat, obj: Reg, arrSize: Reg, t1: Reg, s: State,
                           headerWords: nat, f: nat, len: nat, o: nat) returns (s': State)
    requires BlockAt(code, base, BodyCode(base, obj, arrSize, headerWords * 8, t1)) && Distinct(obj, arrSize, t1)
    requires headerWords < 32 && f <= 3 && InlineSize(headerWords, f, len).Some?
    requires s.pc == base && s.Get(obj) == o && s.Get(arrSize) == InlineSize(headerWords, f, len).value
    requires 4 * |code| < WORD && o + 0x1000_0000 < WORD
    ensures Reaches(code, s, s') && s'.pc == base + BodySize(headerWords * 8) && s'.Get(obj) == o
    ensures var size := InlineSize(headerWords, f, len).value;
            IsArraySize(headerWords, f, len, size) && s'.mem == ZeroWords(s.mem, o + headerWords * 8, (size - headerWords * 8) / 8)
  {
    InlineValue(headerWords, f, len);
    SizeRange(headerWords, f, len);
    s' := BodyClears(code, base, obj, arrSize, headerWords * 8, t1, s, o, InlineSize(headerWords, f, len).value);
  }

  /** The stub path: it clears from the body start with a zero header, and reaches the same memory. */
  lemma {:induction false} StubArrayCleared(code: seq<Instr>, base: nat, body: Reg, arrSize: Reg, t2: Reg, s: State,
                         layoutHelper: nat, headerWords: nat, f: nat, len: nat, o: nat) returns (s': State)
    requires BlockAt(code, base, BodyCode(base, body, arrSize, 0, t2)) && Distinct(body, arrSize, t2)
    requires Describes(layoutHelper, headerWords, f) && len <= MAX_LENGTH
    requires s.pc == base && s.Get(body) == o + headerWords * 8
    requires StubSize(layoutHelper, len).Some? && s.Get(arrSize) == StubSize(layoutHelper, len).value - headerWords * 8
    requires 4 * |code| < WORD && o + 0x1000_0000 < WORD
    ensures Reaches(code, s, s') && s'.pc == base + BodySize(0)
    ensures var size := StubSize(layoutHelper, len).value;
            IsArraySize(headerWords, f, len, size) && s'.mem == ZeroWords(s.mem, o + headerWords * 8, (size - headerWords * 8) / 8)
  {
    StubValue(layoutHelper, headerWords, f, len);
    SizeRange(headerWords, f, len);
    var size := RoundUp8(headerWords * 8 + Scaled(len, f));
    s' := BodyClears(code, base, body, arrSize, 0, t2, s, o + headerWords * 8, size - headerWords * 8);
  }

  // ---------- size and clearing as one program ----------

  /** What the stub emits after the header is written: the header size, loaded as a byte into t1, is taken off the size
      and added to the object, and the rest is cleared. */
  function StubBodyCode(base: nat, obj: Reg, arrSize: Reg, t1: Reg, t2: Reg): seq<Instr> {
    [AndImm(t1, t1, 0xFF), SubReg(arrSize, arrSize, t1, 0), AddReg(t1, t1, obj, 0)] + BodyCode(base + 3, t1, arrSize, 0, t2)
  }

  lemma StubBodyBlocks(code: seq<Instr>, base: nat, obj: Reg, arrSize: Reg, t1: Reg, t2: Reg)
    requires BlockAt(code, base, StubBodyCode(base, obj, arrSize, t1, t2))
    ensures base + 3 <= |code| && BlockAt(code, base + 3, BodyCode(base + 3, t1, arrSize, 0, t2))
    ensures code[base] == AndImm(t1, t1, 0xFF) && code[base + 1] == SubReg(arrSize, arrSize, t1, 0)
    ensures code[base + 2] == AddReg(t1, t1, obj, 0)
  {
    var c, body := StubBodyCode(base, obj, arrSize, t1, t2), BodyCode(base + 3, t1, arrSize, 0, t2);
    ThreeAt(code, base, c);
    forall i | 0 <= i < |body|
      ensures code[base + 3 + i] == body[i]
    {
      assert code[base + (3 + i)] == c[3 + i];
    }
  }

  /** The three instructions before the body code. */
  lemma StubBodyPrologue(code: seq<Instr>, base: nat, obj: Reg, arrSize: Reg, t1: Reg, t2: Reg, s: State, hdr: nat, size: nat, o: nat)
    returns (s': State)
    requires BlockAt(code, base, StubBodyCode(base, obj, arrSize, t1, t2)) && arrSize != t1 && obj != t1 && obj != arrSize
    requires s.pc == base && s.Get(t1) == hdr < 0x100 && s.Get(arrSize) == size && hdr <= size < WORD && s.Get(obj) == o && o + hdr < WORD
    ensures Reaches(code, s, s') && s'.pc == base + 3 && s'.mem == s.mem
    ensures s'.Get(t1) == o + hdr && s'.Get(arrSize) == size - hdr
  {
    StubBodyBlocks(code, base, obj, arrSize, t1, t2);
    assert Pow2(8) == 0x100;
    AndOnes(hdr, 8);
    var s1 := Step(code[s.pc], s);
    assert s1.Get(t1) == hdr;
    ReachesStep(code, s, s1);
    s' := TakeHeaderOff(code, obj, arrSize, t1, s1, hdr, size, o);
    ReachesTrans(code, s, s1, s');
  }

  lemma TakeHeaderOff(code: seq<Instr>, obj: Reg, arrSize: Reg, t1: Reg, s: State, hdr: nat, size: nat, o: nat) returns (s': State)
    requires s.pc + 1 < |code| && arrSize != t1 && obj != t1 && obj != arrSize
    requires code[s.pc] == SubReg(arrSize, arrSize, t1, 0) && code[s.pc + 1] == AddReg(t1, t1, obj, 0)
    requires s.Get(t1) == hdr && s.Get(arrSize) == size && hdr <= size < WORD && s.Get(obj) == o && o + hdr < WORD
    ensures Reaches(code, s, s') && s'.pc == s.pc + 2 && s'.mem == s.mem
    ensures s'.Get(t1) == o + hdr && s'.Get(arrSize) == size - hdr
  {
    assert Pow2(0) == 1;
    var s1 := Step(code[s.pc], s);
    assert s1.Get(arrSize) == size - hdr && s1.Get(t1) == hdr;
    s' := Step(code[s1.pc], s1);
    TwoSteps(code, s, s1, s');
  }

  lemma {:induction false} StubBodyRuns(code: seq<Instr>, base: nat, obj: Reg, arrSize: Reg, t1: Reg, t2: Reg, s: State,
                                        layoutHelper: nat, headerWords: nat, f: nat, len: nat, o: nat) returns (s': State)
    requires BlockAt(code, base, StubBodyCode(base, obj, arrSize, t1, t2)) && Distinct(t1, arrSize, t2)
    requires obj != t1 && obj != arrSize && Describes(layoutHelper, headerWords, f) && len <= MAX_LENGTH
    requires StubSize(layoutHelper, len).Some? && s.pc == base && s.Get(obj) == o && s.Get(t1) == headerWords * 8
    requires s.Get(arrSize) == StubSize(layoutHelper, len).value && 4 * |code| < WORD && o + 0x1000_0000 < WORD
    ensures Reaches(code, s, s') && BodyCleared(s, s', headerWords, f, len, o)
  {
    var size := RoundUp8(headerWords * 8 + Scaled(len, f));
    StubValue(layoutHelper, headerWords, f, len);
    SizeRange(headerWords, f, len);
    var s1 := StubBodyPrologue(code, base, obj, arrSize, t1, t2, s, headerWords * 8, size, o);
    StubBodyBlocks(code, base, obj, arrSize, t1, t2);
    s' := StubArrayCleared(code, base + 3, t1, arrSize, t2, s1, layoutHelper, headerWords, f, len, o);
    ReachesTrans(code, s, s1, s');
  }

  /** Exactly the words from the header to the end of an array of this length are cleared. */
  ghost predicate BodyCleared(s: State, s': State, headerWords: nat, f: nat, len: nat, o: nat) {
    exists size: nat :: IsArraySize(headerWords, f, len, size) && headerWords * 8 <= size
                        && s'.mem == ZeroWords(s.mem, o + headerWords * 8, (size - headerWords * 8) / 8)
  }

  /** What lies between the two pieces: the allocation keeps the size and yields the object at o. */
  ghost predicate Allocated(s: State, s': State, base: nat, obj: Reg, arrSize: Reg, o: nat) {
    s'.pc == base && s'.Get(arrSize) == s.Get(arrSize) && s'.Get(obj) == o && o + 0x1000_0000 < WORD
  }

  /** The stub from the layout helper on, with any allocation in between and the header size loaded again as a byte:
      it clears exactly header to array size. */
  lemma {:induction false} StubArrayRuns(code: seq<Instr>, sizeAt: nat, bodyAt: nat, obj: Reg, arrSize: Reg, lenReg: Reg,
                                         t1: Reg, t2: Reg, s: State, headerWords: nat, f: nat) returns (s1: State)
    requires BlockAt(code, sizeAt, StubSizeCode(arrSize, lenReg, t1)) && BlockAt(code, bodyAt, StubBodyCode(bodyAt, obj, arrSize, t1, t2))
    requires Distinct(t1, arrSize, t2) && obj != t1 && obj != arrSize && arrSize != lenReg && 4 * |code| < WORD
    requires s.pc == sizeAt && Describes(s.Get(t1), headerWords, f) && s.Get(lenReg) <= MAX_LENGTH
    ensures Reaches(code, s, s1) && s1.pc == sizeAt + 5 && s1.mem == s.mem
    ensures forall s2, o :: Allocated(s1, s2, bodyAt, obj, arrSize, o) && s2.Get(t1) == headerWords * 8 ==>
              exists s3 :: Reaches(code, s2, s3) && BodyCleared(s2, s3, headerWords, f, s.Get(lenReg), o)
  {
    var helper, len := s.Get(t1), s.Get(lenReg);
    StubValue(helper, headerWords, f, len);
    s1 := StubSizeRuns(code, sizeAt, arrSize, lenReg, t1, s);
    forall s2, o | Allocated(s1, s2, bodyAt, obj, arrSize, o) && s2.Get(t1) == headerWords * 8
      ensures exists s3 :: Reaches(code, s2, s3) && BodyCleared(s2, s3, headerWords, f, len, o)
    {
      var s3 := StubBodyRuns(code, bodyAt, obj, arrSize, t1, t2, s2, helper, headerWords, f, len, o);
    }
  }

  /** The inline code likewise: below the length limit it clears exactly header to array size. */
  lemma {:induction false} InlineArrayRuns(code: seq<Instr>, sizeAt: nat, bodyAt: nat, obj: Reg, arrSize: Reg, lenReg: Reg,
                                           s: State, headerWords: nat, f: nat) returns (s1: State)
    requires BlockAt(code, sizeAt, InlineSizeCode(arrSize, lenReg, headerWords, f))
    requires BlockAt(code, bodyAt, BodyCode(bodyAt, obj, arrSize, headerWords * 8, lenReg))
    requires Distinct(obj, arrSize, lenReg) && arrSize != lenReg && 4 * |code| < WORD
    requires s.pc == sizeAt && headerWords < 32 && f <= 3 && s.Get(lenReg) < MAX_LENGTH
    ensures Reaches(code, s, s1) && s1.pc == sizeAt + 3 && s1.mem == s.mem
    ensures forall s2, o :: Allocated(s1, s2, bodyAt, obj, arrSize, o) ==>
              exists s3 :: Reaches(code, s2, s3) && BodyCleared(s2, s3, headerWords, f, s.Get(lenReg), o)
  {
    var len := s.Get(lenReg);
    s1 := InlineSizeRuns(code, sizeAt, arrSize, lenReg, headerWords, f, s);
    forall s2, o | Allocated(s1, s2, bodyAt, obj, arrSize, o)
      ensures exists s3 :: Reaches(code, s2, s3) && BodyCleared(s2, s3, headerWords, f, len, o)
    {
      InlineValue(headerWords, f, len);
      SizeRange(headerWords, f, len);
      var s3 := InlineArrayCleared(code, bodyAt, obj, arrSize, lenReg, s2, headerWords, f, len, o);
    }
  }
}
