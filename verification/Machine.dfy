/** The few A64 instructions C1 emits to clear fresh memory, and a machine that executes them. */
module Machine {
  import opened Words

  type Reg = nat

  const WORD32: nat := 0x1_0000_0000

  /** Code positions are instruction indices; instruction i is at code address 4 * i. */
  datatype Instr =
    | Lsr(d: Reg, n: Reg, k: nat)
    | AndImm(d: Reg, n: Reg, imm: nat)
    | AddReg(d: Reg, n: Reg, m: Reg, lsl: nat)
    | SubReg(d: Reg, n: Reg, m: Reg, lsl: nat)
    | AddUxtw(d: Reg, n: Reg, m: Reg, lsl: nat)
    | Lslvw(d: Reg, n: Reg, m: Reg)
    | Ubfx(d: Reg, n: Reg, lsb: nat, width: nat)
    | AddImm(d: Reg, n: Reg, imm: nat)
    | SubImm(d: Reg, n: Reg, imm: nat)
    | SubsImm(d: Reg, n: Reg, imm: nat)
    | MovImm(d: Reg, imm: nat)
    | Adr(d: Reg, target: nat)
    | Br(n: Reg)
    | B(target: nat)
    | Beq(target: nat)
    | Cbnz(n: Reg, target: nat)
    | StrZr(base: Reg, off: int)
    | StpZr(base: Reg, off: int)

  /** Memory is a map from byte addresses of 8-byte words to their contents. */
  datatype State = State(pc: nat, regs: map<Reg, nat>, z: bool, mem: map<nat, nat>) {
    function Get(r: Reg): (v: nat)
    {
      if r in regs then regs[r] else 0
    }

    function Set(r: Reg, v: int): State { this.(pc := pc + 1, regs := regs[r := v % WORD]) }

    function Goto(target: nat): State { this.(pc := target) }

    function Store(a: int): State { this.(mem := mem[a % WORD := 0]) }
  }

  function Step(i: Instr, s: State): State {
    match i
    case Lsr(d, n, k) => s.Set(d, s.Get(n) / Pow2(k))
    case AndImm(d, n, imm) => s.Set(d, And(s.Get(n), imm))
    case AddReg(d, n, m, lsl) => s.Set(d, s.Get(n) + s.Get(m) * Pow2(lsl))
    case SubReg(d, n, m, lsl) => s.Set(d, s.Get(n) - s.Get(m) * Pow2(lsl))
    case AddUxtw(d, n, m, lsl) => s.Set(d, s.Get(n) + s.Get(m) % WORD32 * Pow2(lsl))
    case Lslvw(d, n, m) => s.Set(d, s.Get(n) % WORD32 * Pow2(s.Get(m) % 32) % WORD32)
    case Ubfx(d, n, lsb, width) => s.Set(d, s.Get(n) / Pow2(lsb) % Pow2(width))
    case AddImm(d, n, imm) => s.Set(d, s.Get(n) + imm)
    case SubImm(d, n, imm) => s.Set(d, s.Get(n) - imm)
    case SubsImm(d, n, imm) => s.Set(d, s.Get(n) - imm).(z := (s.Get(n) - imm) % WORD == 0)
    case MovImm(d, imm) => s.Set(d, imm)
    case Adr(d, target) => s.Set(d, 4 * target)
    case Br(n) => s.Goto(s.Get(n) / 4)
    case B(target) => s.Goto(target)
    case Beq(target) => s.Goto(if s.z then target else s.pc + 1)
    case Cbnz(n, target) => s.Goto(if s.Get(n) != 0 then target else s.pc + 1)
    case StrZr(base, off) => s.Store(s.Get(base) + off).Goto(s.pc + 1)
    case StpZr(base, off) => s.Store(s.Get(base) + off).Store(s.Get(base) + off + 8).Goto(s.pc + 1)
  }

  /** n instructions of execution; it stops when it leaves the code. */
  function Run(code: seq<Instr>, s: State, n: nat): State
    decreases n
  {
    if n == 0 || s.pc >= |code| then s else Run(code, Step(code[s.pc], s), n - 1)
  }

  lemma {:induction false} RunAdd(code: seq<Instr>, s: State, a: nat, b: nat)
    ensures Run(code, s, a + b) == Run(code, Run(code, s, a), b)
    decreases a
  {
    if a > 0 && s.pc < |code| {
      RunAdd(code, Step(code[s.pc], s), a - 1, b);
    }
  }

  lemma RunOne(code: seq<Instr>, s: State)
    requires s.pc < |code|
    ensures Run(code, s, 1) == Step(code[s.pc], s)
  {
    assert Run(code, Step(code[s.pc], s), 0) == Step(code[s.pc], s);
  }

  /** Execution from s gets to s'. */
  ghost predicate Reaches(code: seq<Instr>, s: State, s': State) {
    exists n: nat :: Run(code, s, n) == s'
  }

  lemma ReachesTrans(code: seq<Instr>, s: State, t: State, u: State)
    requires Reaches(code, s, t) && Reaches(code, t, u)
    ensures Reaches(code, s, u)
  {
    var a: nat :| Run(code, s, a) == t;
    var b: nat :| Run(code, t, b) == u;
    RunAdd(code, s, a, b);
  }

  lemma ReachesStep(code: seq<Instr>, s: State, t: State)
    requires s.pc < |code| && t == Step(code[s.pc], s)
    ensures Reaches(code, s, t)
  {
    RunOne(code, s);
  }

  lemma ReachesRefl(code: seq<Instr>, s: State)
    ensures Reaches(code, s, s)
  {
    assert Run(code, s, 0) == s;
  }

  /** The block stands in the code at the given position. */
  ghost predicate BlockAt(code: seq<Instr>, base: nat, block: seq<Instr>) {
    base + |block| <= |code| && forall i :: 0 <= i < |block| ==> code[base + i] == block[i]
  }

  lemma BlockCons(code: seq<Instr>, base: nat, i: Instr, rest: seq<Instr>)
    requires BlockAt(code, base, [i] + rest)
    ensures base < |code| && code[base] == i && BlockAt(code, base + 1, rest)
  {
    var block := [i] + rest;
    assert code[base + 0] == block[0];
    forall k | 0 <= k < |rest|
      ensures code[base + 1 + k] == rest[k]
    {
      assert code[base + (1 + k)] == block[1 + k];
    }
  }

  // ---------- cleared memory ----------

  /** n words of zero starting at address a. */
  function ZeroWords(mem: map<nat, nat>, a: nat, n: nat): map<nat, nat>
    decreases n
  {
    if n == 0 then mem else ZeroWords(mem, a, n - 1)[a + 8 * (n - 1) := 0]
  }

  /** Exactly the n words from a on are zero afterwards; every other address is untouched. */
  lemma {:induction false} ZeroWordsExact(mem: map<nat, nat>, a: nat, n: nat, x: nat)
    ensures var inside := a <= x < a + 8 * n && (x - a) % 8 == 0;
            && (inside ==> x in ZeroWords(mem, a, n) && ZeroWords(mem, a, n)[x] == 0)
            && (!inside ==> (x in ZeroWords(mem, a, n) <==> x in mem))
            && (!inside && x in mem ==> ZeroWords(mem, a, n)[x] == mem[x])
    decreases n
  {
    if n > 0 {
      ZeroWordsExact(mem, a, n - 1, x);
    }
  }

  lemma {:induction false} ZeroWordsAppend(mem: map<nat, nat>, a: nat, n: nat, m: nat)
    ensures ZeroWords(ZeroWords(mem, a, n), a + 8 * n, m) == ZeroWords(mem, a, n + m)
    decreases m
  {
    if m > 0 {
      ZeroWordsAppend(mem, a, n, m - 1);
    }
  }
}
