/** The code `zero_memory` emits: an unrolled clearing loop entered by a computed branch. */
module Zeroing {
  import opened Words
  import opened Machine

  const UNROLL: nat := 8
  const RSCRATCH1: Reg := 8
  const RSCRATCH2: Reg := 9

  /** Eight stores below the pointer in t1, lowest address first. */
  function Stores(t1: Reg): (c: seq<Instr>)
    ensures |c| == UNROLL
  {
    [StrZr(t1, -64), StrZr(t1, -56), StrZr(t1, -48), StrZr(t1, -40),
     StrZr(t1, -32), StrZr(t1, -24), StrZr(t1, -16), StrZr(t1, -8)]
  }

  /** Count, split off the odd words, point past them and branch to before `target`. */
  function PrologueTo(target: nat, addr: Reg, len: Reg, t1: Reg): (c: seq<Instr>)
    ensures |c| == 7
  {
    [Lsr(len, len, 3),
     AndImm(RSCRATCH1, len, 7),
     SubReg(len, len, RSCRATCH1, 0),
     AddReg(t1, addr, RSCRATCH1, 3),
     Adr(RSCRATCH2, target),
     SubReg(RSCRATCH2, RSCRATCH2, RSCRATCH1, 2),
     Br(RSCRATCH2)]
  }

  function Prologue(base: nat, addr: Reg, len: Reg, t1: Reg): (c: seq<Instr>)
    ensures |c| == 7
  {
    PrologueTo(base + 16, addr, len, t1)
  }

  /** What `zero_memory` emits at code position base: the loop starts at base + 7, the entry label is
      at base + 16. */
  function ZeroMemoryCode(base: nat, addr: Reg, len: Reg, t1: Reg): (c: seq<Instr>)
    ensures |c| == 18
  {
    Prologue(base, addr, len, t1) + [SubImm(len, len, 8)] + Stores(t1) + [AddImm(t1, t1, 64), Cbnz(len, base + 7)]
  }

  predicate Distinct(addr: Reg, len: Reg, t1: Reg) {
    && addr != len && addr != t1 && len != t1
    && addr != RSCRATCH1 && addr != RSCRATCH2 && len != RSCRATCH1 && len != RSCRATCH2 && t1 != RSCRATCH1 && t1 != RSCRATCH2
  }

  // ---------- word arithmetic ----------

  lemma ModAdd(x: int, y: int)
    ensures (x % WORD + y) % WORD == (x + y) % WORD
  {
  }

  lemma {:induction false} AndSeven(x: nat)
    ensures And(x, 7) == x % 8
  {
    assert And(x, 7) == if x == 0 then 0 else x % 2 + 2 * And(x / 2, 3);
    assert And(x / 2, 3) == if x / 2 == 0 then 0 else x / 2 % 2 + 2 * And(x / 2 / 2, 1);
    assert And(x / 2 / 2, 1) == if x / 2 / 2 == 0 then 0 else x / 2 / 2 % 2 + 2 * And(x / 2 / 2 / 2, 0);
  }

  // ---------- the stores ----------

  /** The pointer register points just past word `done` of the region at a, modulo the word size. */
  predicate PointsAt(s: State, t1: Reg, a: nat, words: nat) { s.Get(t1) == (a + 8 * words) % WORD }

  lemma StoreAt(code: seq<Instr>, start: nat, t1: Reg, k: nat)
    requires BlockAt(code, start, Stores(t1)) && 0 < k <= UNROLL
    ensures code[start + UNROLL - k] == StrZr(t1, -8 * k)
  {
    assert code[start + (UNROLL - k)] == Stores(t1)[UNROLL - k];
  }

  lemma OneStore(code: seq<Instr>, start: nat, t1: Reg, s: State, a: nat, done: nat, k: nat)
    requires BlockAt(code, start, Stores(t1)) && 0 < k <= UNROLL
    requires s.pc == start + UNROLL - k && PointsAt(s, t1, a, done + k) && a + 8 * (done + k) <= WORD
    ensures Step(code[s.pc], s) == s.(pc := s.pc + 1, mem := s.mem[a + 8 * done := 0])
  {
    StoreAt(code, start, t1, k);
    ModAdd(a + 8 * (done + k), -8 * k);
  }

  /** Entering the store block k instructions before its end clears the k words below the pointer. */
  lemma {:induction false} StoresClear(code: seq<Instr>, start: nat, t1: Reg, s: State, a: nat, done: nat, k: nat)
    requires BlockAt(code, start, Stores(t1)) && k <= UNROLL
    requires s.pc == start + UNROLL - k && PointsAt(s, t1, a, done + k) && a + 8 * (done + k) <= WORD
    ensures Reaches(code, s, s.(pc := start + UNROLL, mem := ZeroWords(s.mem, a + 8 * done, k)))
    decreases k
  {
    if k == 0 {
      ReachesRefl(code, s);
      assert s == s.(pc := start + UNROLL, mem := ZeroWords(s.mem, a + 8 * done, 0));
    } else {
      OneStore(code, start, t1, s, a, done, k);
      var s' := s.(pc := s.pc + 1, mem := s.mem[a + 8 * done := 0]);
      ReachesStep(code, s, s');
      StoresClear(code, start, t1, s', a, done + 1, k - 1);
      ZeroWordsAppend(s.mem, a + 8 * done, 1, k - 1);
      assert ZeroWords(s.mem, a + 8 * done, 1) == s'.mem;
      ReachesTrans(code, s, s', s.(pc := start + UNROLL, mem := ZeroWords(s.mem, a + 8 * done, k)));
    }
  }

  // ---------- the loop ----------

  /** s' is s with the region cleared: only pc, memory, len and t1 differ. */
  ghost predicate Cleared(s: State, s': State, pc: nat, mem: map<nat, nat>, len: Reg, t1: Reg) {
    && s'.pc == pc && s'.mem == mem
    && forall r :: r != len && r != t1 ==> s'.Get(r) == s.Get(r)
  }

  lemma Instrs(code: seq<Instr>, base: nat, addr: Reg, len: Reg, t1: Reg)
    requires BlockAt(code, base, ZeroMemoryCode(base, addr, len, t1))
    ensures base + 18 <= |code| && BlockAt(code, base, Prologue(base, addr, len, t1)) && BlockAt(code, base + 8, Stores(t1))
    ensures code[base + 7] == SubImm(len, len, 8) && code[base + 16] == AddImm(t1, t1, 64) && code[base + 17] == Cbnz(len, base + 7)
  {
    var c := ZeroMemoryCode(base, addr, len, t1);
    forall i | 0 <= i < 7
      ensures code[base + i] == Prologue(base, addr, len, t1)[i]
    {
      assert code[base + i] == c[i];
    }
    forall i | 0 <= i < UNROLL
      ensures code[base + 8 + i] == Stores(t1)[i]
    {
      assert code[base + (8 + i)] == c[8 + i];
    }
    assert code[base + 7] == c[7] && code[base + 16] == c[16] && code[base + 17] == c[17];
  }

  /** The end of a round: advance the pointer and go round again unless nothing is left. */
  lemma LoopTest(code: seq<Instr>, base: nat, addr: Reg, len: Reg, t1: Reg, s: State, a: nat, done: nat, cnt: nat)
    returns (s': State)
    requires BlockAt(code, base, ZeroMemoryCode(base, addr, len, t1)) && len != t1
    requires s.pc == base + 16 && PointsAt(s, t1, a, done) && s.Get(len) == cnt
    ensures Reaches(code, s, s') && s'.mem == s.mem && s'.pc == (if cnt == 0 then base + 18 else base + 7)
    ensures PointsAt(s', t1, a, done + 8) && s'.Get(len) == cnt && forall r :: r != t1 ==> s'.Get(r) == s.Get(r)
  {
    Instrs(code, base, addr, len, t1);
    var s1 := Step(code[s.pc], s);
    ModAdd(a + 8 * done, 64);
    s' := Step(code[s1.pc], s1);
    TwoSteps(code, s, s1, s');
  }

  /** One round: count eight words down and clear them. */
  lemma LoopRound(code: seq<Instr>, base: nat, addr: Reg, len: Reg, t1: Reg, s: State, a: nat, done: nat, cnt: nat)
    returns (s': State)
    requires BlockAt(code, base, ZeroMemoryCode(base, addr, len, t1)) && len != t1
    requires s.pc == base + 7 && PointsAt(s, t1, a, done + 8) && s.Get(len) == cnt && 8 <= cnt < WORD
    requires a + 8 * (done + 8) <= WORD
    ensures Reaches(code, s, s') && s'.mem == ZeroWords(s.mem, a + 8 * done, 8) && s'.pc == base + 16
    ensures PointsAt(s', t1, a, done + 8) && s'.Get(len) == cnt - 8 && forall r :: r != len ==> s'.Get(r) == s.Get(r)
  {
    Instrs(code, base, addr, len, t1);
    var s1 := Step(code[s.pc], s);
    ReachesStep(code, s, s1);
    StoresClear(code, base + 8, t1, s1, a, done, 8);
    s' := s1.(pc := base + 16, mem := ZeroWords(s1.mem, a + 8 * done, 8));
    ReachesTrans(code, s, s1, s');
  }

  /** From the entry label, with `cnt` words left (a multiple of eight), the loop clears them all. */
  lemma {:induction false} LoopClears(code: seq<Instr>, base: nat, addr: Reg, len: Reg, t1: Reg, s: State, a: nat, done: nat, cnt: nat)
    returns (s': State)
    requires BlockAt(code, base, ZeroMemoryCode(base, addr, len, t1)) && len != t1
    requires s.pc == base + 16 && PointsAt(s, t1, a, done) && s.Get(len) == cnt && cnt % 8 == 0
    requires a + 8 * (done + cnt) <= WORD
    ensures Reaches(code, s, s') && Cleared(s, s', base + 18, ZeroWords(s.mem, a + 8 * done, cnt), len, t1)
    decreases cnt
  {
    var s1 := LoopTest(code, base, addr, len, t1, s, a, done, cnt);
    if cnt == 0 {
      s' := s1;
    } else {
      var s2 := LoopRound(code, base, addr, len, t1, s1, a, done, cnt);
      s' := LoopClears(code, base, addr, len, t1, s2, a, done + 8, cnt - 8);
      ReachesTrans(code, s, s1, s2);
      ReachesTrans(code, s, s2, s');
      ZeroWordsAppend(s.mem, a + 8 * done, 8, cnt - 8);
    }
  }

  // ---------- the whole device ----------

  lemma TwoSteps(code: seq<Instr>, s: State, t: State, u: State)
    requires s.pc < |code| && t == Step(code[s.pc], s) && t.pc < |code| && u == Step(code[t.pc], t)
    ensures Reaches(code, s, u)
  {
    ReachesStep(code, s, t);
    ReachesStep(code, t, u);
    ReachesTrans(code, s, t, u);
  }

  /** len becomes the word count, rscratch1 its remainder modulo eight. */
  lemma CountRuns(code: seq<Instr>, base: nat, addr: Reg, len: Reg, t1: Reg, s: State, n: nat) returns (s': State)
    requires BlockAt(code, base, Prologue(base, addr, len, t1)) && Distinct(addr, len, t1)
    requires s.pc == base && s.Get(len) == 8 * n && 8 * n < WORD
    ensures Reaches(code, s, s') && s'.mem == s.mem && s'.pc == base + 2
    ensures s'.Get(len) == n && s'.Get(RSCRATCH1) == n % 8
    ensures forall r :: r != len && r != RSCRATCH1 ==> s'.Get(r) == s.Get(r)
  {
    var p := Prologue(base, addr, len, t1);
    assert code[base + 0] == p[0] && code[base + 1] == p[1];
    var s1 := Step(code[s.pc], s);
    EighthOf(n);
    assert s1.Get(len) == n;
    AndSeven(n);
    s' := Step(code[s1.pc], s1);
    TwoSteps(code, s, s1, s');
  }

  lemma EighthOf(n: nat)
    requires 8 * n < WORD
    ensures 8 * n / Pow2(3) == n && n % WORD == n && n % 8 % WORD == n % 8
  {
    assert Pow2(3) == 8;
  }

  /** len drops the odd words, t1 points past them. */
  lemma PointRuns(code: seq<Instr>, base: nat, addr: Reg, len: Reg, t1: Reg, s: State, a: nat, n: nat, rem: nat) returns (s': State)
    requires BlockAt(code, base, Prologue(base, addr, len, t1)) && Distinct(addr, len, t1)
    requires s.pc == base + 2 && s.Get(len) == n < WORD && s.Get(RSCRATCH1) == rem <= n && s.Get(addr) == a
    ensures Reaches(code, s, s') && s'.mem == s.mem && s'.pc == base + 4
    ensures s'.Get(len) == n - rem && PointsAt(s', t1, a, rem)
    ensures forall r :: r != len && r != t1 ==> s'.Get(r) == s.Get(r)
  {
    var p := Prologue(base, addr, len, t1);
    assert code[base + 2] == p[2] && code[base + 3] == p[3];
    assert Pow2(3) == 8 && Pow2(0) == 1;
    var s1 := Step(code[s.pc], s);
    s' := Step(code[s1.pc], s1);
    TwoSteps(code, s, s1, s');
  }

  /** The prologue splits off the odd words, points past them and branches into the store block. */
  lemma PrologueRuns(code: seq<Instr>, base: nat, addr: Reg, len: Reg, t1: Reg, s: State, a: nat, n: nat) returns (s': State)
    requires BlockAt(code, base, ZeroMemoryCode(base, addr, len, t1)) && Distinct(addr, len, t1)
    requires s.pc == base && s.Get(addr) == a && s.Get(len) == 8 * n && 8 * n < WORD && 4 * |code| < WORD
    ensures Reaches(code, s, s') && s'.mem == s.mem && s'.pc == base + 16 - n % 8
    ensures PointsAt(s', t1, a, n % 8) && s'.Get(len) == n - n % 8
    ensures forall r :: r != len && r != t1 && r != RSCRATCH1 && r != RSCRATCH2 ==> s'.Get(r) == s.Get(r)
  {
    Instrs(code, base, addr, len, t1);
    var s2 := CountRuns(code, base, addr, len, t1, s, n);
    var s4 := PointRuns(code, base, addr, len, t1, s2, a, n, n % 8);
    s' := BranchIn(code, base, addr, len, t1, s4, n % 8);
    ReachesTrans(code, s, s2, s4);
    ReachesTrans(code, s, s4, s');
  }

  /** rscratch2 becomes the code address `rem` instructions before the entry label. */
  lemma BranchTarget(code: seq<Instr>, base: nat, addr: Reg, len: Reg, t1: Reg, s: State, rem: nat) returns (s': State)
    requires BlockAt(code, base, Prologue(base, addr, len, t1)) && 4 * (base + 16) < WORD
    requires s.pc == base + 4 && s.Get(RSCRATCH1) == rem < 8
    ensures Reaches(code, s, s') && s'.mem == s.mem && s'.pc == base + 6
    ensures s'.Get(RSCRATCH2) == 4 * (base + 16 - rem) && forall r :: r != RSCRATCH2 ==> s'.Get(r) == s.Get(r)
  {
    var p := Prologue(base, addr, len, t1);
    assert code[base + 4] == p[4] && code[base + 5] == p[5];
    assert Pow2(2) == 4;
    var s1 := Step(code[s.pc], s);
    SmallWord(4 * (base + 16));
    assert s1.Get(RSCRATCH2) == 4 * (base + 16);
    s' := Step(code[s1.pc], s1);
    SmallWord(4 * (base + 16 - rem));
    TwoSteps(code, s, s1, s');
  }

  lemma SmallWord(x: int)
    requires 0 <= x < WORD
    ensures x % WORD == x
  {
  }

  /** The computed branch lands `rem` instructions before the entry label. */
  lemma BranchIn(code: seq<Instr>, base: nat, addr: Reg, len: Reg, t1: Reg, s: State, rem: nat) returns (s': State)
    requires BlockAt(code, base, ZeroMemoryCode(base, addr, len, t1)) && Distinct(addr, len, t1)
    requires s.pc == base + 4 && s.Get(RSCRATCH1) == rem < 8 && 4 * |code| < WORD
    ensures Reaches(code, s, s') && s'.mem == s.mem && s'.pc == base + 16 - rem
    ensures forall r :: r != RSCRATCH2 ==> s'.Get(r) == s.Get(r)
  {
    Instrs(code, base, addr, len, t1);
    var s1 := BranchTarget(code, base, addr, len, t1, s, rem);
    var p := Prologue(base, addr, len, t1);
    assert code[base + 6] == p[6];
    s' := Step(code[s1.pc], s1);
    ReachesStep(code, s1, s');
    ReachesTrans(code, s, s1, s');
  }

  /** For every word count, `zero_memory` clears exactly the n words at addr, terminates behind its
      last instruction, and preserves addr and every register it does not name. */
  lemma ZeroMemoryClears(code: seq<Instr>, base: nat, addr: Reg, len: Reg, t1: Reg, s: State, a: nat, n: nat) returns (s': State)
    requires BlockAt(code, base, ZeroMemoryCode(base, addr, len, t1)) && Distinct(addr, len, t1)
    requires s.pc == base && s.Get(addr) == a && s.Get(len) == 8 * n && a + 8 * n <= WORD && 4 * |code| < WORD
    requires a < WORD && 8 * n < WORD
    ensures Reaches(code, s, s') && s'.pc == base + 18 && s'.mem == ZeroWords(s.mem, a, n)
    ensures forall r :: r != len && r != t1 && r != RSCRATCH1 && r != RSCRATCH2 ==> s'.Get(r) == s.Get(r)
  {
    Instrs(code, base, addr, len, t1);
    var s1 := PrologueRuns(code, base, addr, len, t1, s, a, n);
    var rem := n % 8;
    StoresClear(code, base + 8, t1, s1, a, 0, rem);
    var s2 := s1.(pc := base + 16, mem := ZeroWords(s.mem, a, rem));
    s' := LoopClears(code, base, addr, len, t1, s2, a, rem, n - rem);
    ReachesTrans(code, s, s1, s2);
    ReachesTrans(code, s, s2, s');
    ZeroWordsAppend(s.mem, a, rem, n - rem);
  }
}
