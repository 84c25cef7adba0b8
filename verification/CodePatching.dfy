/** `pd_patch_instruction_size` and `target_addr_for_insn` on a code buffer, multi-word forms included. */
module CodePatching {
  import opened Options
  import opened Words
  import opened InsnBits
  import opened Branches
  import opened Relocation

  predicate IsPcRelative(w: Word) { Extract(w, 28, 24) == 16 }

  predicate IsAdr(w: Word) { IsPcRelative(w) && Extract(w, 31, 31) == 0 }

  predicate IsMovz(w: Word) { Extract(w, 31, 21) == 0x694 }

  predicate IsMovk(w: Word) { Extract(w, 30, 23) == 0xE5 }

  /** The polling-page load, which has no target of its own. */
  predicate IsPoll(w: Word) { Extract(w, 31, 22) == 0x2E5 && Extract(w, 4, 0) == 31 }

  /** The words that replace those from k on; None when a check fails. `pc` is the address of word k. An adrp without
      a partner is replaced alone, though the word after it is looked at. */
  function PatchAt(code: seq<Word>, k: nat, pc: nat, target: nat): Option<seq<Word>>
    requires k < |code|
  {
    var w := code[k];
    if PatchSlot(w).Some? || IsAdr(w) then
      match PatchWord(w, target - pc)
      case Some(w') => Some([w'])
      case None => None
    else if IsPcRelative(w) then
      if k + 1 >= |code| then None
      else match PatchPair(w, code[k + 1], pc, target)
           case Some(p) => Some(if PageAccess(w, code[k + 1]) || PageAdd(w, code[k + 1]) then [p.0, p.1] else [p.0])
           case None => None
    else if IsMovz(w) then
      if k + 2 >= |code| || !IsMovk(code[k + 1]) || !IsMovk(code[k + 2]) then None
      else
        var m := PatchMoves((w, code[k + 1], code[k + 2]), target);
        Some([m.0, m.1, m.2])
    else if IsPoll(w) && target == 0 then Some([w])
    else None
  }

  /** The target the word at k refers to; None where the code has no answer. */
  function TargetAt(code: seq<Word>, k: nat, pc: nat): Option<int>
    requires k < |code|
  {
    var w := code[k];
    if TargetSlot(w).Some? then TargetOf(w, pc)
    else if IsPcRelative(w) then
      if Extract(w, 31, 31) == 0 || k + 1 >= |code| then None else Some(TargetOfPair(w, code[k + 1], pc))
    else if Extract(w, 31, 23) == 0x1A5 then
      if k + 2 >= |code| then None else Some(TargetOfMoves((w, code[k + 1], code[k + 2])))
    else if IsPoll(w) then Some(0)
    else None
  }

  /** The code with the given words written from k on. */
  function Written(code: seq<Word>, k: nat, ws: seq<Word>): seq<Word>
    requires k + |ws| <= |code|
  {
    code[..k] + ws + code[k + |ws|..]
  }

  // ---------- the other classes are told apart ----------

  lemma BitsFar(w: Word)
    requires !w[26] && !w[27]
    ensures PatchSlot(w) == None && TargetSlot(w) == None
  {
    BitDiffers(w, 29, 27, 3, 27);
    BitDiffers(w, 28, 27, 3, 27);
    BitDiffers(w, 30, 26, 5, 26);
    BitDiffers(w, 31, 25, 0x2A, 26);
    BitDiffers(w, 30, 25, 0x1A, 26);
    BitDiffers(w, 30, 25, 0x1B, 26);
  }

  lemma PcRelativeClass(w: Word)
    requires IsPcRelative(w)
    ensures PatchSlot(w) == None && TargetSlot(w) == None
  {
    BitIs(w, 28, 24, 16, 26);
    BitIs(w, 28, 24, 16, 27);
    BitsFar(w);
  }

  lemma MovzClass(w: Word)
    requires IsMovz(w)
    ensures PatchSlot(w) == None && TargetSlot(w) == None && !IsPcRelative(w) && Extract(w, 31, 23) == 0x1A5
  {
    MovzBits();
    BitIs(w, 31, 21, 0x694, 26);
    BitIs(w, 31, 21, 0x694, 27);
    BitsFar(w);
    BitIs(w, 31, 21, 0x694, 25);
    BitDiffers(w, 28, 24, 16, 25);
    TopOfMovz(w);
  }

  lemma MovzBits()
    ensures BitOf(0x694, 4) && !BitOf(0x694, 5) && !BitOf(0x694, 6) && !BitOf(16, 1) && !BitOf(0x694, 3)
  {
  }

  lemma TopOfMovz(w: Word)
    requires IsMovz(w)
    ensures Extract(w, 31, 23) == 0x1A5
  {
    var s := w[21..32];
    assert s[2..] == w[23..32];
    assert Value(s) % 4 < 4 && Value(s[1..]) == Value(s) / 2 && s[1..][1..] == s[2..];
    assert Value(s[2..]) == Value(s[1..]) / 2;
  }

  // ---------- patching makes the target ----------

  /** The target as a whole number of words away from pc. */
  function RoundedTo(pc: int, target: int): int { pc + (target - pc) / 4 * 4 }

  lemma MovzPatched(w: Word, v: nat)
    requires IsMovz(w)
    ensures IsMovz(SetField(w, 20, 5, v))
  {
    SetExtractOther(w, 20, 5, v, 31, 21);
  }

  /** After a successful patch the buffer refers to the target: exactly for adrp pairs, address constants and polls,
      rounded down to a word for the pc-relative forms. */
  lemma PatchedTarget(code: seq<Word>, k: nat, pc: nat, target: nat)
    requires k < |code| && PatchAt(code, k, pc, target).Some? && !IsAdr(code[k])
    requires target < 0x1_0000_0000_0000
    ensures k + |PatchAt(code, k, pc, target).value| <= |code|
    ensures TargetAt(Written(code, k, PatchAt(code, k, pc, target).value), k, pc)
            == Some(if PatchSlot(code[k]).Some? then RoundedTo(pc, target) else target)
  {
    var w := code[k];
    if PatchSlot(w).Some? {
      SlotPatched(code, k, pc, target);
    } else if IsPcRelative(w) {
      PairPatched(code, k, pc, target);
    } else if IsMovz(w) {
      MovesPatched(code, k, pc, target);
    } else {
      PollPatched(code, k, pc, target);
    }
  }

  lemma SlotPatched(code: seq<Word>, k: nat, pc: nat, target: nat)
    requires k < |code| && PatchAt(code, k, pc, target).Some? && PatchSlot(code[k]).Some?
    ensures PatchAt(code, k, pc, target).value == [PatchWord(code[k], target - pc).value]
    ensures TargetAt(Written(code, k, PatchAt(code, k, pc, target).value), k, pc) == Some(RoundedTo(pc, target))
  {
    PatchThenTarget(code[k], pc, target - pc);
  }

  lemma PairPatched(code: seq<Word>, k: nat, pc: nat, target: nat)
    requires k < |code| && PatchAt(code, k, pc, target).Some? && IsPcRelative(code[k]) && Extract(code[k], 31, 31) != 0
    ensures 1 <= |PatchAt(code, k, pc, target).value| <= 2 && k + 2 <= |code|
    ensures TargetAt(Written(code, k, PatchAt(code, k, pc, target).value), k, pc) == Some(target)
  {
    PcRelativeClass(code[k]);
    OneBit(code[k]);
    PairThenTarget(code[k], code[k + 1], pc, target);
    var p := PatchPair(code[k], code[k + 1], pc, target).value;
    PcRelativeClass(p.0);
    var c := Written(code, k, PatchAt(code, k, pc, target).value);
    assert c[k] == p.0 && c[k + 1] == p.1;
  }

  lemma OneBit(w: Word)
    ensures Extract(w, 31, 31) <= 1
  {
    assert Pow2(1) == 2;
  }

  lemma MovesPatched(code: seq<Word>, k: nat, pc: nat, target: nat)
    requires k < |code| && PatchAt(code, k, pc, target).Some? && IsMovz(code[k]) && target < 0x1_0000_0000_0000
    ensures |PatchAt(code, k, pc, target).value| == 3 && k + 3 <= |code|
    ensures TargetAt(Written(code, k, PatchAt(code, k, pc, target).value), k, pc) == Some(target)
  {
    MovzClass(code[k]);
    var ws := (code[k], code[k + 1], code[k + 2]);
    var m := PatchMoves(ws, target);
    MovesThenTarget(ws, target);
    MovzPatched(code[k], target % 0x1_0000);
    MovzClass(m.0);
    var c := Written(code, k, [m.0, m.1, m.2]);
    assert c[k] == m.0 && c[k + 1] == m.1 && c[k + 2] == m.2;
  }

  lemma PollClass(w: Word)
    requires IsPoll(w)
    ensures PatchSlot(w) == None && TargetSlot(w) == None && !IsPcRelative(w) && !IsMovz(w) && Extract(w, 31, 23) != 0x1A5
  {
    PollBits();
    MovzBits();
    BitIs(w, 31, 22, 0x2E5, 24);
    BitIs(w, 31, 22, 0x2E5, 26);
    BitIs(w, 31, 22, 0x2E5, 27);
    BitIs(w, 31, 22, 0x2E5, 30);
    BitDiffers(w, 25, 24, 0, 24);
    BitDiffers(w, 30, 26, 5, 26);
    BitDiffers(w, 31, 25, 0x2A, 30);
    BitDiffers(w, 30, 25, 0x1A, 27);
    BitDiffers(w, 30, 25, 0x1B, 27);
    BitDiffers(w, 28, 24, 16, 24);
    BitDiffers(w, 31, 21, 0x694, 24);
    BitDiffers(w, 31, 23, 0x1A5, 24);
  }

  lemma PollBits()
    ensures BitOf(0x2E5, 2) && !BitOf(0x2E5, 4) && BitOf(0x2E5, 5) && !BitOf(0x2E5, 8)
    ensures BitOf(0x2A, 5) && !BitOf(0x1A, 2) && !BitOf(0x1B, 2) && BitOf(5, 0) && !BitOf(16, 0) && !BitOf(0, 0) && !BitOf(0x1A5, 1)
  {
  }

  lemma PollPatched(code: seq<Word>, k: nat, pc: nat, target: nat)
    requires k < |code| && PatchAt(code, k, pc, target).Some? && IsPoll(code[k]) && target == 0
    ensures PatchAt(code, k, pc, target).value == [code[k]]
    ensures TargetAt(Written(code, k, PatchAt(code, k, pc, target).value), k, pc) == Some(0)
  {
    PollClass(code[k]);
  }

  // ---------- in place ----------

  /** adr and adrp: the high part of the offset is patched signed, the low two bits unsigned. */
  method PatchAdrAt(code: array<Word>, k: nat, offset: int) returns (ok: bool)
    requires k < code.Length
    modifies code
    ensures ok <==> PatchAdrp(old(code[k]), offset).Some?
    ensures code[..] == if ok then old(code[..])[k := PatchAdrp(old(code[k]), offset).value] else old(code[..])
  {
    ok := SpatchAt(code, k, 23, 5, offset / 4);
    if ok {
      code[k] := SetField(code[k], 30, 29, offset % 4);
    }
  }

  /** An adrp and, where it is a partner, the word after it. All checks come before the first write. */
  method PatchPairAt(code: array<Word>, k: nat, pc: nat, target: nat) returns (n: nat)
    requires k + 1 < code.Length
    modifies code
    ensures var patch := PatchPair(old(code[k]), old(code[k + 1]), pc, target);
            if patch.None? then n == 0 && code[..] == old(code[..])
            else && n == (if PageAccess(old(code[k]), old(code[k + 1])) || PageAdd(old(code[k]), old(code[k + 1])) then 2 else 1)
                 && code[..] == old(code[..])[k := patch.value.0][k + 1 := patch.value.1]
  {
    var w, w2, low := code[k], code[k + 1], target % PAGE;
    if Extract(w2, 29, 24) == 0x39 && Extract(w, 4, 0) == Extract(w2, 9, 5) {
      if target % Bytes(w2) != 0 {
        return 0;
      }
      n, low := 2, low / Bytes(w2);
    } else if Extract(w2, 31, 22) == 0x244 && Extract(w, 4, 0) == Extract(w2, 4, 0) {
      n := 2;
    } else {
      if low != 0 {
        return 0;
      }
      n := 1;
    }
    var ok := PatchAdrAt(code, k, target / PAGE - pc / PAGE);
    if !ok {
      return 0;
    }
    if n == 2 {
      code[k + 1] := SetField(w2, 21, 10, low);
    }
  }

  /** The three 16-bit immediates of an address constant. */
  method PatchMovesAt(code: array<Word>, k: nat, target: nat)
    requires k + 2 < code.Length
    modifies code
    ensures var m := PatchMoves((old(code[k]), old(code[k + 1]), old(code[k + 2])), target);
            code[..] == old(code[..])[k := m.0][k + 1 := m.1][k + 2 := m.2]
  {
    code[k] := SetField(code[k], 20, 5, target % 0x1_0000);
    code[k + 1] := SetField(code[k + 1], 20, 5, target / 0x1_0000 % 0x1_0000);
    code[k + 2] := SetField(code[k + 2], 20, 5, target / 0x1_0000_0000 % 0x1_0000);
  }

  /** `now` is `was` after n words from k on were patched; n is 0 and nothing changed when a check fails. */
  ghost predicate Patched(was: seq<Word>, k: nat, pc: nat, target: nat, n: nat, now: seq<Word>)
    requires k < |was|
  {
    var patch := PatchAt(was, k, pc, target);
    if patch.None? then n == 0 && now == was
    else n == |patch.value| > 0 && k + n <= |was| && now == Written(was, k, patch.value)
  }

  /** The branches of the patcher, in order. */
  method PatchWordsAt(code: array<Word>, k: nat, pc: nat, target: nat) returns (n: nat)
    requires k < code.Length
    modifies code
    ensures Patched(old(code[..]), k, pc, target, n, code[..])
  {
    ghost var was := code[..];
    var w := code[k];
    var slot, ok := PatchSlotAt(code, k, (target - pc) / 4);
    if slot {
      n := if ok then 1 else 0;
      SlotDone(was, k, pc, target);
    } else if Extract(w, 28, 24) == 16 && Extract(w, 31, 31) == 0 {
      ok := PatchAdrAt(code, k, target - pc);
      n := if ok then 1 else 0;
      AdrDone(was, k, pc, target);
    } else if Extract(w, 28, 24) == 16 {
      n := PatchPageAt(code, k, pc, target);
    } else if IsMovz(w) {
      n := PatchConstantAt(code, k, pc, target);
    } else {
      n := if IsPoll(w) && target == 0 then 1 else 0;
      PollDone(was, k, pc, target);
    }
  }

  method PatchPageAt(code: array<Word>, k: nat, pc: nat, target: nat) returns (n: nat)
    requires k < code.Length && PatchSlot(code[k]).None? && IsPcRelative(code[k]) && !IsAdr(code[k])
    modifies code
    ensures Patched(old(code[..]), k, pc, target, n, code[..])
  {
    n := 0;
    if k + 1 < code.Length {
      ghost var was := code[..];
      n := PatchPairAt(code, k, pc, target);
      PairDone(was, k, pc, target);
    }
  }

  method PatchConstantAt(code: array<Word>, k: nat, pc: nat, target: nat) returns (n: nat)
    requires k < code.Length && PatchSlot(code[k]).None? && !IsPcRelative(code[k]) && IsMovz(code[k])
    modifies code
    ensures Patched(old(code[..]), k, pc, target, n, code[..])
  {
    n := 0;
    if k + 2 < code.Length && IsMovk(code[k + 1]) && IsMovk(code[k + 2]) {
      ghost var was := code[..];
      PatchMovesAt(code, k, target);
      n := 3;
      MovesDone(was, k, pc, target);
    }
  }

  lemma SlotDone(was: seq<Word>, k: nat, pc: nat, target: nat)
    requires k < |was| && PatchSlot(was[k]).Some?
    ensures var p := PatchWord(was[k], 4 * ((target - pc) / 4));
            if p.Some? then Patched(was, k, pc, target, 1, was[k := p.value]) else Patched(was, k, pc, target, 0, was)
  {
    assert 4 * ((target - pc) / 4) / 4 == (target - pc) / 4;
  }

  lemma AdrDone(was: seq<Word>, k: nat, pc: nat, target: nat)
    requires k < |was| && IsAdr(was[k])
    ensures var p := PatchAdrp(was[k], target - pc);
            if p.Some? then Patched(was, k, pc, target, 1, was[k := p.value]) else Patched(was, k, pc, target, 0, was)
  {
    PcRelativeClass(was[k]);
  }

  lemma PairDone(was: seq<Word>, k: nat, pc: nat, target: nat)
    requires k + 1 < |was| && PatchSlot(was[k]).None? && IsPcRelative(was[k]) && !IsAdr(was[k])
    ensures var p := PatchPair(was[k], was[k + 1], pc, target);
            var n := if PageAccess(was[k], was[k + 1]) || PageAdd(was[k], was[k + 1]) then 2 else 1;
            if p.None? then Patched(was, k, pc, target, 0, was)
            else Patched(was, k, pc, target, n, was[k := p.value.0][k + 1 := p.value.1])
  {
    var p := PatchPair(was[k], was[k + 1], pc, target);
    if p.Some? {
      assert Written(was, k, [p.value.0, p.value.1]) == was[k := p.value.0][k + 1 := p.value.1];
      assert Written(was, k, [p.value.0]) == was[k := p.value.0][k + 1 := was[k + 1]];
    }
  }

  lemma MovesDone(was: seq<Word>, k: nat, pc: nat, target: nat)
    requires k + 2 < |was| && PatchSlot(was[k]).None? && !IsPcRelative(was[k]) && IsMovz(was[k])
    requires IsMovk(was[k + 1]) && IsMovk(was[k + 2])
    ensures var m := PatchMoves((was[k], was[k + 1], was[k + 2]), target);
            Patched(was, k, pc, target, 3, was[k := m.0][k + 1 := m.1][k + 2 := m.2])
  {
    var m := PatchMoves((was[k], was[k + 1], was[k + 2]), target);
    assert Written(was, k, [m.0, m.1, m.2]) == was[k := m.0][k + 1 := m.1][k + 2 := m.2];
  }

  lemma PollDone(was: seq<Word>, k: nat, pc: nat, target: nat)
    requires k < |was| && PatchSlot(was[k]).None? && !IsPcRelative(was[k]) && !IsMovz(was[k])
    ensures Patched(was, k, pc, target, if IsPoll(was[k]) && target == 0 then 1 else 0, was)
  {
    assert Written(was, k, [was[k]]) == was;
  }

  /** Patch the word at k, whose address is pc; the result is the number of bytes patched. Afterwards the reader answers
      the target, and no other word has changed. */
  method PdPatchInstructionSize(code: array<Word>, k: nat, pc: nat, target: nat) returns (size: Option<nat>)
    requires k < code.Length
    modifies code
    ensures Patched(old(code[..]), k, pc, target, if size.None? then 0 else size.value / 4, code[..])
    ensures size.None? ==> code[..] == old(code[..])
    ensures size.Some? ==> 4 <= size.value <= 12 && size.value % 4 == 0
                           && OthersKept(old(code[..]), k, size.value / 4, code[..])
    ensures size.Some? && target < 0x1_0000_0000_0000 && !IsAdr(old(code[k])) ==>
              TargetAt(code[..], k, pc)
              == Some(if PatchSlot(old(code[k])).Some? then RoundedTo(pc, target) else target)
  {
    ghost var was := code[..];
    var n := PatchWordsAt(code, k, pc, target);
    size := if n == 0 then None else Some(4 * n);
    Caller(was, k, pc, target, n, code[..]);
  }

  /** Only the n words from k on may differ. */
  ghost predicate OthersKept(was: seq<Word>, k: nat, n: nat, now: seq<Word>) {
    |now| == |was| && forall i :: 0 <= i < |was| && !(k <= i < k + n) ==> now[i] == was[i]
  }

  lemma Caller(was: seq<Word>, k: nat, pc: nat, target: nat, n: nat, now: seq<Word>)
    requires k < |was| && Patched(was, k, pc, target, n, now)
    ensures n == 0 ==> now == was
    ensures n <= 3 && OthersKept(was, k, n, now)
    ensures n > 0 && target < 0x1_0000_0000_0000 && !IsAdr(was[k]) ==>
              TargetAt(now, k, pc) == Some(if PatchSlot(was[k]).Some? then RoundedTo(pc, target) else target)
  {
    if n > 0 {
      var patch := PatchAt(was, k, pc, target).value;
      PatchLength(was, k, pc, target);
      KeptOutside(was, k, patch);
      if target < 0x1_0000_0000_0000 && !IsAdr(was[k]) {
        PatchedTarget(was, k, pc, target);
      }
    }
  }

  lemma PatchLength(was: seq<Word>, k: nat, pc: nat, target: nat)
    requires k < |was| && PatchAt(was, k, pc, target).Some?
    ensures |PatchAt(was, k, pc, target).value| <= 3
  {
  }

  lemma KeptOutside(was: seq<Word>, k: nat, ws: seq<Word>)
    requires k + |ws| <= |was|
    ensures OthersKept(was, k, |ws|, Written(was, k, ws))
  {
  }
}
