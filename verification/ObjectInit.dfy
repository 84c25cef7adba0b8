/** Clearing the body of a fresh object: `initialize_body` and the constant-size forms of
    `initialize_object`, as emitted code and as executed. */
module ObjectInit {
  import opened Words
  import opened Machine
  import opened Zeroing

  // ---------- initialize_body ----------

  function ObjStep(obj: Reg, hdr: nat, add: bool): seq<Instr> {
    if hdr == 0 then [] else if add then [AddImm(obj, obj, hdr)] else [SubImm(obj, obj, hdr)]
  }

  function BodySize(hdr: nat): nat { if hdr == 0 then 20 else 22 }

  function BodyStart(base: nat, hdr: nat): nat { if hdr == 0 then base + 2 else base + 3 }

  function BodyCode(base: nat, obj: Reg, len: Reg, hdr: nat, t1: Reg): (c: seq<Instr>)
    ensures |c| == BodySize(hdr)
  {
    [SubsImm(len, len, hdr), Beq(base + BodySize(hdr))] + ObjStep(obj, hdr, true)
    + ZeroMemoryCode(BodyStart(base, hdr), obj, len, t1) + ObjStep(obj, hdr, false)
  }

  lemma BodyInstrs(code: seq<Instr>, base: nat, obj: Reg, len: Reg, hdr: nat, t1: Reg)
    requires BlockAt(code, base, BodyCode(base, obj, len, hdr, t1))
    ensures base + BodySize(hdr) <= |code|
    ensures code[base] == SubsImm(len, len, hdr) && code[base + 1] == Beq(base + BodySize(hdr))
    ensures BlockAt(code, BodyStart(base, hdr), ZeroMemoryCode(BodyStart(base, hdr), obj, len, t1))
    ensures hdr != 0 ==> code[base + 2] == AddImm(obj, obj, hdr) && code[base + 21] == SubImm(obj, obj, hdr)
  {
    var c := BodyCode(base, obj, len, hdr, t1);
    var start := BodyStart(base, hdr);
    var z := ZeroMemoryCode(start, obj, len, t1);
    assert code[base + 0] == c[0] && code[base + 1] == c[1];
    forall i | 0 <= i < 18
      ensures code[start + i] == z[i]
    {
      assert code[base + (start - base + i)] == c[start - base + i];
    }
    if hdr != 0 {
      assert code[base + 2] == c[2] && code[base + 21] == c[21];
    }
  }

  /** Whatever the size, the body code clears exactly the words from the header to the size, keeps obj
      and falls through behind itself. */
  lemma BodyClears(code: seq<Instr>, base: nat, obj: Reg, len: Reg, hdr: nat, t1: Reg, s: State, o: nat, size: nat)
    returns (s': State)
    requires BlockAt(code, base, BodyCode(base, obj, len, hdr, t1)) && Distinct(obj, len, t1)
    requires s.pc == base && s.Get(obj) == o && s.Get(len) == size && hdr <= size && 4 * |code| < WORD
    requires size % 8 == 0 && hdr % 8 == 0 && o + size < WORD
    ensures Reaches(code, s, s') && s'.pc == base + BodySize(hdr)
    ensures s'.mem == ZeroWords(s.mem, o + hdr, (size - hdr) / 8)
    ensures forall r :: r != len && r != t1 && r != RSCRATCH1 && r != RSCRATCH2 ==> s'.Get(r) == s.Get(r)
  {
    var n := (size - hdr) / 8;
    var s2 := BodyTest(code, base, obj, len, hdr, t1, s, size);
    if size == hdr {
      s' := s2;
    } else if hdr == 0 {
      BodyInstrs(code, base, obj, len, hdr, t1);
      s' := ZeroMemoryClears(code, base + 2, obj, len, t1, s2, o, n);
      ReachesTrans(code, s, s2, s');
    } else {
      BodyInstrs(code, base, obj, len, hdr, t1);
      var s3 := Step(code[s2.pc], s2);
      ReachesStep(code, s2, s3);
      ReachesTrans(code, s, s2, s3);
      s' := BodyTail(code, base, obj, len, hdr, t1, s3, o, n);
      ReachesTrans(code, s, s3, s');
    }
  }

  /** len becomes the byte count of the body; an empty body skips the rest. */
  lemma BodyTest(code: seq<Instr>, base: nat, obj: Reg, len: Reg, hdr: nat, t1: Reg, s: State, size: nat) returns (s': State)
    requires BlockAt(code, base, BodyCode(base, obj, len, hdr, t1))
    requires s.pc == base && s.Get(len) == size && hdr <= size < WORD
    ensures Reaches(code, s, s') && s'.mem == s.mem && s'.pc == if size == hdr then base + BodySize(hdr) else base + 2
    ensures s'.Get(len) == size - hdr && forall r :: r != len ==> s'.Get(r) == s.Get(r)
  {
    BodyInstrs(code, base, obj, len, hdr, t1);
    var s1 := Step(code[s.pc], s);
    s' := Step(code[s1.pc], s1);
    TwoSteps(code, s, s1, s');
  }

  lemma BodyTail(code: seq<Instr>, base: nat, obj: Reg, len: Reg, hdr: nat, t1: Reg, s: State, o: nat, n: nat) returns (s': State)
    requires BlockAt(code, base, BodyCode(base, obj, len, hdr, t1)) && Distinct(obj, len, t1) && hdr != 0
    requires s.pc == base + 3 && s.Get(obj) == o + hdr && s.Get(len) == 8 * n && o + hdr + 8 * n < WORD && 4 * |code| < WORD
    ensures Reaches(code, s, s') && s'.pc == base + 22 && s'.mem == ZeroWords(s.mem, o + hdr, n) && s'.Get(obj) == o
    ensures forall r :: r != len && r != t1 && r != RSCRATCH1 && r != RSCRATCH2 && r != obj ==> s'.Get(r) == s.Get(r)
  {
    BodyInstrs(code, base, obj, len, hdr, t1);
    var s4 := ZeroMemoryClears(code, base + 3, obj, len, t1, s, o + hdr, n);
    s' := Step(code[s4.pc], s4);
    ReachesStep(code, s4, s');
    ReachesTrans(code, s, s4, s');
  }

  // ---------- small constant sizes: explicit stores ----------

  function Pairs(obj: Reg, i: nat, con: nat): seq<Instr>
    decreases if con >= i then con - i else 0
  {
    if i < con then [StpZr(obj, i)] + Pairs(obj, i + 16, con) else []
  }

  function SmallCode(obj: Reg, hdr: nat, con: nat): seq<Instr> {
    if hdr < con && con % 16 != 0 then [StrZr(obj, hdr)] + Pairs(obj, hdr + 8, con) else Pairs(obj, hdr, con)
  }

  /** The number of words the pair stores from offset i write: the rest rounded up to pairs. */
  function PairWords(i: nat, con: nat): nat { if i < con then (con - i + 15) / 16 * 2 else 0 }

  lemma PairFirst(i: nat, con: nat)
    requires i < con
    ensures PairWords(i, con) == 2 + PairWords(i + 16, con)
  {
  }

  lemma TwoWords(mem: map<nat, nat>, a: nat)
    ensures ZeroWords(mem, a, 2) == mem[a := 0][a + 8 := 0]
  {
    assert ZeroWords(mem, a, 1) == mem[a := 0];
  }

  lemma PairRuns(code: seq<Instr>, obj: Reg, i: nat, s: State, o: nat) returns (s': State)
    requires s.pc < |code| && code[s.pc] == StpZr(obj, i) && s.Get(obj) == o && o + i + 16 <= WORD
    ensures Reaches(code, s, s') && s' == s.(pc := s.pc + 1, mem := ZeroWords(s.mem, o + i, 2))
  {
    s' := Step(code[s.pc], s);
    TwoWords(s.mem, o + i);
    ReachesStep(code, s, s');
  }

  lemma {:induction false} PairsClear(code: seq<Instr>, base: nat, obj: Reg, i: nat, con: nat, s: State, o: nat) returns (s': State)
    requires BlockAt(code, base, Pairs(obj, i, con)) && s.pc == base && s.Get(obj) == o && o + i + 8 * PairWords(i, con) <= WORD
    ensures Reaches(code, s, s') && s'.pc == base + |Pairs(obj, i, con)|
    ensures s'.mem == ZeroWords(s.mem, o + i, PairWords(i, con)) && s'.regs == s.regs
    decreases if con >= i then con - i else 0
  {
    if i >= con {
      s' := s;
      ReachesRefl(code, s);
    } else {
      BlockCons(code, base, StpZr(obj, i), Pairs(obj, i + 16, con));
      PairFirst(i, con);
      var s1 := PairRuns(code, obj, i, s, o);
      s' := PairsClear(code, base + 1, obj, i + 16, con, s1, o);
      ReachesTrans(code, s, s1, s');
      ZeroWordsAppend(s.mem, o + i, 2, PairWords(i + 16, con));
    }
  }

  /** The words the explicit stores really clear: one too many when the header is not two-word aligned. */
  function SmallWords(hdr: nat, con: nat): nat {
    if hdr >= con then 0 else (con - hdr) / 8 + if hdr % 16 == 0 then 0 else 1
  }

  lemma PairCount(i: nat, con: nat, p: int, x: int)
    requires con - i == 16 * p + 8 * x && p >= 0 && 0 <= x <= 1
    ensures PairWords(i, con) == 2 * (p + x)
  {
    if x == 1 {
      assert (con - i + 15) / 16 == p + 1;
    } else if p > 0 {
      assert (con - i + 15) / 16 == p;
    }
  }

  lemma SmallCount(hdr: nat, con: nat)
    requires hdr % 8 == 0 && con % 8 == 0
    ensures SmallWords(hdr, con) == if hdr < con && con % 16 != 0 then 1 + PairWords(hdr + 8, con) else PairWords(hdr, con)
  {
    var h, c := hdr / 8, con / 8;
    SmallCountParts(h / 2, h % 2, c / 2, c % 2);
  }

  lemma SmallCountParts(hp: nat, hb: nat, cp: nat, cb: nat)
    requires hb <= 1 && cb <= 1
    ensures var hdr, con := 16 * hp + 8 * hb, 16 * cp + 8 * cb;
            SmallWords(hdr, con) == if hdr < con && con % 16 != 0 then 1 + PairWords(hdr + 8, con) else PairWords(hdr, con)
  {
    var hdr, con := 16 * hp + 8 * hb, 16 * cp + 8 * cb;
    assert con % 16 == 8 * cb && hdr % 16 == 8 * hb;
    if hdr < con {
      PairCount(hdr + 8 * cb, con, cp - hp - hb, hb);
    }
  }

  lemma SmallClears(code: seq<Instr>, base: nat, obj: Reg, hdr: nat, con: nat, s: State, o: nat) returns (s': State)
    requires BlockAt(code, base, SmallCode(obj, hdr, con)) && s.pc == base && s.Get(obj) == o
    requires hdr % 8 == 0 && con % 8 == 0 && o + hdr + 8 * SmallWords(hdr, con) <= WORD
    ensures Reaches(code, s, s') && s'.pc == base + |SmallCode(obj, hdr, con)|
    ensures s'.mem == ZeroWords(s.mem, o + hdr, SmallWords(hdr, con)) && s'.regs == s.regs
  {
    SmallCount(hdr, con);
    if hdr < con && con % 16 != 0 {
      BlockCons(code, base, StrZr(obj, hdr), Pairs(obj, hdr + 8, con));
      var s1 := Step(code[s.pc], s);
      assert s1.mem == s.mem[o + hdr := 0] == ZeroWords(s.mem, o + hdr, 1);
      ReachesStep(code, s, s1);
      s' := PairsClear(code, base + 1, obj, hdr + 8, con, s1, o);
      ReachesTrans(code, s, s1, s');
      ZeroWordsAppend(s.mem, o + hdr, 1, PairWords(hdr + 8, con));
    } else {
      s' := PairsClear(code, base, obj, hdr, con, s, o);
    }
  }

  // ---------- larger constant sizes: a loop entered in the middle ----------

  function LargeCode(base: nat, obj: Reg, hdr: nat, con: nat, index: Reg): (c: seq<Instr>)
    requires hdr <= con
    ensures |c| == 14
  {
    var words := (con - hdr) / 8;
    [MovImm(index, words / 8), AddImm(RSCRATCH1, obj, hdr + words % 8 * 8), B(base + 12 - words % 8), SubImm(index, index, 1)]
    + Stores(RSCRATCH1) + [AddImm(RSCRATCH1, RSCRATCH1, 64), Cbnz(index, base + 3)]
  }

  lemma LargeInstrs(code: seq<Instr>, base: nat, obj: Reg, hdr: nat, con: nat, index: Reg)
    requires hdr <= con && BlockAt(code, base, LargeCode(base, obj, hdr, con, index))
    ensures var words := (con - hdr) / 8;
            && base + 14 <= |code| && BlockAt(code, base + 4, Stores(RSCRATCH1))
            && code[base] == MovImm(index, words / 8) && code[base + 1] == AddImm(RSCRATCH1, obj, hdr + words % 8 * 8)
            && code[base + 2] == B(base + 12 - words % 8) && code[base + 3] == SubImm(index, index, 1)
            && code[base + 12] == AddImm(RSCRATCH1, RSCRATCH1, 64) && code[base + 13] == Cbnz(index, base + 3)
  {
    var c := LargeCode(base, obj, hdr, con, index);
    forall i | 0 <= i < UNROLL
      ensures code[base + 4 + i] == Stores(RSCRATCH1)[i]
    {
      assert code[base + (4 + i)] == c[4 + i];
    }
    assert code[base + 0] == c[0] && code[base + 1] == c[1] && code[base + 2] == c[2] && code[base + 3] == c[3];
    assert code[base + 12] == c[12] && code[base + 13] == c[13];
  }

  /** The end of a round: advance the pointer and go round again unless no round is left. */
  lemma RoundTest(code: seq<Instr>, base: nat, obj: Reg, hdr: nat, con: nat, index: Reg,
                  s: State, a: nat, done: nat, cnt: nat) returns (s': State)
    requires hdr <= con && BlockAt(code, base, LargeCode(base, obj, hdr, con, index)) && index != RSCRATCH1
    requires s.pc == base + 12 && PointsAt(s, RSCRATCH1, a, done) && s.Get(index) == cnt
    ensures Reaches(code, s, s') && s'.mem == s.mem && s'.pc == (if cnt == 0 then base + 14 else base + 3)
    ensures PointsAt(s', RSCRATCH1, a, done + 8) && s'.Get(index) == cnt
    ensures forall r :: r != RSCRATCH1 ==> s'.Get(r) == s.Get(r)
  {
    LargeInstrs(code, base, obj, hdr, con, index);
    var s1 := Step(code[s.pc], s);
    ModAdd(a + 8 * done, 64);
    s' := Step(code[s1.pc], s1);
    TwoSteps(code, s, s1, s');
  }

  lemma Round(code: seq<Instr>, base: nat, obj: Reg, hdr: nat, con: nat, index: Reg,
              s: State, a: nat, done: nat, cnt: nat) returns (s': State)
    requires hdr <= con && BlockAt(code, base, LargeCode(base, obj, hdr, con, index)) && index != RSCRATCH1
    requires s.pc == base + 3 && PointsAt(s, RSCRATCH1, a, done + 8) && s.Get(index) == cnt && 0 < cnt < WORD
    requires a + 8 * (done + 8) <= WORD
    ensures Reaches(code, s, s') && s'.mem == ZeroWords(s.mem, a + 8 * done, 8) && s'.pc == base + 12
    ensures PointsAt(s', RSCRATCH1, a, done + 8) && s'.Get(index) == cnt - 1
    ensures forall r :: r != index ==> s'.Get(r) == s.Get(r)
  {
    LargeInstrs(code, base, obj, hdr, con, index);
    var s1 := Step(code[s.pc], s);
    ReachesStep(code, s, s1);
    StoresClear(code, base + 4, RSCRATCH1, s1, a, done, 8);
    s' := s1.(pc := base + 12, mem := ZeroWords(s1.mem, a + 8 * done, 8));
    ReachesTrans(code, s, s1, s');
  }

  /** From the end of the store block, with `cnt` rounds left, the loop clears 8 * cnt more words. */
  lemma {:induction false} RoundsClear(code: seq<Instr>, base: nat, obj: Reg, hdr: nat, con: nat, index: Reg,
                                       s: State, a: nat, done: nat, cnt: nat) returns (s': State)
    requires hdr <= con && BlockAt(code, base, LargeCode(base, obj, hdr, con, index)) && index != RSCRATCH1
    requires s.pc == base + 12 && PointsAt(s, RSCRATCH1, a, done) && s.Get(index) == cnt && a + 8 * (done + 8 * cnt) <= WORD
    ensures Reaches(code, s, s') && Cleared(s, s', base + 14, ZeroWords(s.mem, a + 8 * done, 8 * cnt), index, RSCRATCH1)
    decreases cnt
  {
    var s1 := RoundTest(code, base, obj, hdr, con, index, s, a, done, cnt);
    if cnt == 0 {
      s' := s1;
    } else {
      var s2 := Round(code, base, obj, hdr, con, index, s1, a, done, cnt);
      s' := RoundsClear(code, base, obj, hdr, con, index, s2, a, done + 8, cnt - 1);
      ReachesTrans(code, s, s1, s2);
      ReachesTrans(code, s, s2, s');
      ZeroWordsAppend(s.mem, a + 8 * done, 8, 8 * (cnt - 1));
    }
  }

  lemma LargeEnters(code: seq<Instr>, base: nat, obj: Reg, hdr: nat, con: nat, index: Reg, s: State, o: nat) returns (s': State)
    requires hdr <= con && BlockAt(code, base, LargeCode(base, obj, hdr, con, index))
    requires index != RSCRATCH1 && obj != RSCRATCH1 && obj != index
    requires s.pc == base && s.Get(obj) == o && o + con < WORD
    ensures var words := (con - hdr) / 8;
            && Reaches(code, s, s') && s'.mem == s.mem && s'.pc == base + 12 - words % 8
            && PointsAt(s', RSCRATCH1, o + hdr, words % 8) && s'.Get(index) == words / 8
    ensures forall r :: r != index && r != RSCRATCH1 ==> s'.Get(r) == s.Get(r)
  {
    LargeInstrs(code, base, obj, hdr, con, index);
    var s1 := Step(code[s.pc], s);
    var s2 := Step(code[s1.pc], s1);
    TwoSteps(code, s, s1, s2);
    s' := Step(code[s2.pc], s2);
    ReachesStep(code, s2, s');
    ReachesTrans(code, s, s2, s');
  }

  /** The mid-loop entry clears exactly the words from the header to the constant size. */
  lemma LargeClears(code: seq<Instr>, base: nat, obj: Reg, hdr: nat, con: nat, index: Reg, s: State, o: nat) returns (s': State)
    requires hdr <= con && BlockAt(code, base, LargeCode(base, obj, hdr, con, index))
    requires index != RSCRATCH1 && obj != RSCRATCH1 && obj != index
    requires s.pc == base && s.Get(obj) == o && o + con < WORD
    ensures Reaches(code, s, s') && s'.pc == base + 14 && s'.mem == ZeroWords(s.mem, o + hdr, (con - hdr) / 8)
    ensures forall r :: r != index && r != RSCRATCH1 ==> s'.Get(r) == s.Get(r)
  {
    var words := (con - hdr) / 8;
    var s1 := LargeEnters(code, base, obj, hdr, con, index, s, o);
    s' := LargeRest(code, base, obj, hdr, con, index, s1, o + hdr, words % 8, words / 8);
    ReachesTrans(code, s, s1, s');
  }

  /** From the entry in the middle: the odd words, then the rounds. */
  lemma LargeRest(code: seq<Instr>, base: nat, obj: Reg, hdr: nat, con: nat, index: Reg, s: State, a: nat, rem: nat, cnt: nat)
    returns (s': State)
    requires hdr <= con && BlockAt(code, base, LargeCode(base, obj, hdr, con, index)) && index != RSCRATCH1 && rem < 8
    requires s.pc == base + 12 - rem && PointsAt(s, RSCRATCH1, a, rem) && s.Get(index) == cnt && a + 8 * (rem + 8 * cnt) <= WORD
    ensures Reaches(code, s, s') && s'.pc == base + 14 && s'.mem == ZeroWords(s.mem, a, 8 * cnt + rem)
    ensures forall r :: r != index && r != RSCRATCH1 ==> s'.Get(r) == s.Get(r)
  {
    LargeInstrs(code, base, obj, hdr, con, index);
    StoresClear(code, base + 4, RSCRATCH1, s, a, 0, rem);
    var s2 := s.(pc := base + 12, mem := ZeroWords(s.mem, a, rem));
    s' := RoundsClear(code, base, obj, hdr, con, index, s2, a, rem, cnt);
    ReachesTrans(code, s, s2, s');
    ZeroWordsAppend(s.mem, a, rem, 8 * cnt);
  }
}
