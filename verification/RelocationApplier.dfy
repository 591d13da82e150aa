/** Applying MIPS relocations to instruction words (core/relocation_applier.cc). */
module RelocationApplier {
  import opened Leaders
  import opened Mips
  import opened Wrappers

  datatype RelocationType = R26 | RHi16 | RLo16 | R32 | ROther

  datatype ElfRelocation = ElfRelocation(functionOffset: nat, kind: RelocationType, symbolName: string)
  {
    function WordIndex(): nat { functionOffset / 4 }
  }

  // ----- Halves of a word -----

  function Low(word: bv32): bv16 { (word & 0xFFFF) as bv16 }

  function HighHalf(x: bv32): bv16 { ((x >> 16) & 0xFFFF) as bv16 }

  function WithLow(word: bv32, low: bv16): bv32 { (word & 0xFFFF0000) | (low as bv32) }

  function Carried(full: bv32): bv32 { full + 0x8000 }

  function Sum(a: bv32, b: bv32): bv32 { a + b }

  /** The upper half of a word, in place. */
  function Upper(word: bv32): bv32 { word & 0xFFFF0000 }

  function JumpField(word: bv32): bv32 { word & 0x03FFFFFF }

  function Quarter(x: bv32): bv32 { x >> 2 }

  /** Where a patched 26-bit field should lead. */
  function MovedTarget(word: bv32, symbol: bv32): bv32 { (JumpField(word) << 2) + symbol }

  function WithField(word: bv32, field: bv32): bv32 { (word & 0xFC000000) | (field & 0x03FFFFFF) }

  /** The word with its 26-bit field moved by a symbol. */
  function WithTarget(word: bv32, symbol: bv32): bv32 { WithField(word, Quarter(MovedTarget(word, symbol))) }

  /** Where the code at vram jumps with this field. */
  function Joined(vram: bv32, field: bv32): bv32 { Under(vram, Times4(field)) }

  function Under(vram: bv32, x: bv32): bv32 { (vram & 0xF0000000) | x }

  function Times4(x: bv32): bv32 { x << 2 }

  function WithinRegion(x: bv32): bv32 { x & 0x0FFFFFFC }

  function JumpLeads(word: bv32, vram: bv32): bv32 { Joined(vram, JumpField(word)) }

  predicate Aligned(x: bv32) { x & 3 == 0 }

  predicate SameRegion(x: bv32, y: bv32) { x & 0xF0000000 == y & 0xF0000000 }

  function Borrowed(h: bv32): bv32 { h + 0x10000 }

  function LowPart(word: bv32): bv32 { word & 0xFFFF }

  function SignedLow(word: bv32): bv32 { LowPart(word) | 0xFFFF0000 }

  predicate IsNegativeLow(word: bv32) { word & 0x8000 != 0 }

  lemma UpperOfHighHalf(x: bv32)
    ensures UpperHalf(HighHalf(x)) == Upper(x)
  {
  }

  lemma Carry(full: bv32)
    ensures Upper(Carried(full)) == if IsNegativeLow(full) then Borrowed(Upper(full)) else Upper(full)
  {
    if IsNegativeLow(full) {
      CarryNegative(full);
    } else {
      CarryPositive(full);
    }
  }

  lemma CarryPositive(full: bv32)
    requires full & 0x8000 == 0
    ensures (full + 0x8000) & 0xFFFF0000 == full & 0xFFFF0000
  {
  }

  lemma CarryNegative(full: bv32)
    requires full & 0x8000 != 0
    ensures (full + 0x8000) & 0xFFFF0000 == (full & 0xFFFF0000) + 0x10000
  {
  }

  lemma SignPositive(full: bv32)
    requires full & 0x8000 == 0
    ensures SignExtend(Low(full)) == full & 0xFFFF
  {
  }

  lemma SignNegative(full: bv32)
    requires full & 0x8000 != 0
    ensures SignExtend(Low(full)) == (full & 0xFFFF) | 0xFFFF0000
  {
  }

  lemma Sign(full: bv32)
    ensures SignExtend(Low(full)) == if IsNegativeLow(full) then SignedLow(full) else LowPart(full)
  {
    hide SignExtend, Low;
    if IsNegativeLow(full) {
      SignNegative(full);
    } else {
      SignPositive(full);
    }
  }

  lemma HalvesSum(full: bv32)
    ensures Sum(Upper(full), LowPart(full)) == full
  {
  }

  lemma OrIsPlus(x: bv32)
    ensures (x & 0xFFFF) | 0xFFFF0000 == (x & 0xFFFF) + 0xFFFF0000
  {
  }

  lemma BorrowCancels(h: bv32, l: bv32)
    ensures (h + 0x10000) + (l + 0xFFFF0000) == h + l
  {
  }

  lemma BorrowedHalvesSum(full: bv32)
    ensures Sum(Borrowed(Upper(full)), SignedLow(full)) == full
  {
    calc {
      Sum(Borrowed(Upper(full)), SignedLow(full));
    ==
      ((full & 0xFFFF0000) + 0x10000) + ((full & 0xFFFF) | 0xFFFF0000);
    == { OrIsPlus(full); }
      ((full & 0xFFFF0000) + 0x10000) + ((full & 0xFFFF) + 0xFFFF0000);
    == { BorrowCancels(full & 0xFFFF0000, full & 0xFFFF); }
      (full & 0xFFFF0000) + (full & 0xFFFF);
    == { HalvesSum(full); }
      full;
    }
  }

  lemma HiLoIsSum(hi: bv16, lo: bv16)
    ensures HiLo(hi, lo) == Sum(UpperHalf(hi), SignExtend(lo))
  {
    hide UpperHalf, SignExtend;
  }

  /** The carried high half and the sign-extended low half of an address add up to it. */
  lemma HiLoIdentity(full: bv32)
    ensures HiLo(HighHalf(Carried(full)), Low(full)) == full
  {
    hide SignExtend, UpperHalf, HighHalf, Low, Carried, HiLo, Upper, LowPart, SignedLow, Borrowed, IsNegativeLow, Sum;
    HiLoIsSum(HighHalf(Carried(full)), Low(full));
    UpperOfHighHalf(Carried(full));
    Carry(full);
    Sign(full);
    HalvesSum(full);
    BorrowedHalvesSum(full);
  }

  lemma LowOfWithLow(word: bv32, low: bv16)
    ensures Low(WithLow(word, low)) == low
    ensures Upper(WithLow(word, low)) == Upper(word)
  {
  }

  // ----- The specification -----

  type SymbolLookup = string -> Option<bv32>

  /** The first low relocation of a symbol from position j on. */
  function FirstLo(relocations: seq<ElfRelocation>, name: string, j: nat): (r: Option<nat>)
    ensures r.Some? ==>
      j <= r.value < |relocations| && relocations[r.value].kind.RLo16? && relocations[r.value].symbolName == name
    decreases |relocations| - j
  {
    if j >= |relocations| then None
    else if relocations[j].kind.RLo16? && relocations[j].symbolName == name then Some(j)
    else FirstLo(relocations, name, j + 1)
  }

  /** The low addend that a high relocation takes into account. */
  function LowAddend(words: seq<bv32>, relocations: seq<ElfRelocation>, i: nat): bv16
    requires i < |relocations|
  {
    var j := FirstLo(relocations, relocations[i].symbolName, i + 1);
    if j.Some? && relocations[j.value].WordIndex() < |words| then Low(words[relocations[j.value].WordIndex()]) else 0
  }

  /** What relocation i makes of a word. */
  function Patch(words: seq<bv32>, relocations: seq<ElfRelocation>, i: nat, word: bv32, symbol: bv32): bv32
    requires i < |relocations|
  {
    match relocations[i].kind
    case R26 => WithTarget(word, symbol)
    case RHi16 => WithLow(word, HighHalf(Carried(Sum(symbol, SignExtend(LowAddend(words, relocations, i))))))
    case RLo16 => WithLow(word, Low(Sum(symbol, SignExtend(Low(word)))))
    case R32 => Sum(word, symbol)
    case ROther => word
  }

  predicate InCode(words: seq<bv32>, r: ElfRelocation) { r.WordIndex() < |words| && r.symbolName != "" }

  predicate Applies(words: seq<bv32>, r: ElfRelocation, lookup: SymbolLookup) {
    InCode(words, r) && lookup(r.symbolName).Some?
  }

  /** The words after the first n relocations. */
  function Applied(words: seq<bv32>, relocations: seq<ElfRelocation>, lookup: SymbolLookup, n: nat): (r: seq<bv32>)
    requires n <= |relocations|
    ensures |r| == |words|
  {
    if n == 0 then words
    else
      var before, rel := Applied(words, relocations, lookup, n - 1), relocations[n - 1];
      if Applies(words, rel, lookup) then
        before[rel.WordIndex() :=
          Patch(words, relocations, n - 1, before[rel.WordIndex()], lookup(rel.symbolName).value)]
      else before
  }

  method FindLowAddend(words: seq<bv32>, relocations: seq<ElfRelocation>, i: nat) returns (addend: bv16)
    requires i < |relocations|
    ensures addend == LowAddend(words, relocations, i)
  {
    hide Low;
    addend := 0;
    var name := relocations[i].symbolName;
    var j := i + 1;
    while j < |relocations|
      invariant i < j <= |relocations|
      invariant FirstLo(relocations, name, i + 1) == FirstLo(relocations, name, j)
    {
      if relocations[j].kind.RLo16? && relocations[j].symbolName == name {
        var loWordIndex := relocations[j].WordIndex();
        if loWordIndex < |words| {
          addend := Low(words[loWordIndex]);
        }
        return;
      }
      j := j + 1;
    }
  }

  method ApplyRelocations(words: seq<bv32>, relocations: seq<ElfRelocation>, lookup: SymbolLookup)
    returns (patched: seq<bv32>, unresolved: set<string>)
    ensures patched == Applied(words, relocations, lookup, |relocations|)
    ensures forall name :: name in unresolved <==>
      exists i :: 0 <= i < |relocations| && InCode(words, relocations[i]) &&
        relocations[i].symbolName == name && lookup(name).None?
  {
    hide WithLow, WithTarget, HighHalf, Carried, Sum, Low, LowAddend;
    patched, unresolved := words, {};
    for i := 0 to |relocations|
      invariant patched == Applied(words, relocations, lookup, i)
      invariant forall name :: name in unresolved <==>
        exists k :: 0 <= k < i && InCode(words, relocations[k]) &&
          relocations[k].symbolName == name && lookup(name).None?
    {
      var rel := relocations[i];
      if !InCode(words, rel) {
        continue;
      }
      var symbol := lookup(rel.symbolName);
      if symbol.None? {
        unresolved := unresolved + {rel.symbolName};
        continue;
      }
      var at := rel.WordIndex();
      var word := patched[at];
      var new' := PatchWord(words, relocations, i, word, symbol.value);
      patched := patched[at := new'];
    }
  }

  method PatchWord(words: seq<bv32>, relocations: seq<ElfRelocation>, i: nat, word: bv32, symbol: bv32)
    returns (r: bv32)
    requires i < |relocations|
    ensures r == Patch(words, relocations, i, word, symbol)
  {
    hide WithLow, WithTarget, HighHalf, Carried, Sum, Low, LowAddend, SignExtend;
    match relocations[i].kind
    case R26 => r := WithTarget(word, symbol);
    case RHi16 =>
      var addend := FindLowAddend(words, relocations, i);
      r := WithLow(word, HighHalf(Carried(Sum(symbol, SignExtend(addend)))));
    case RLo16 => r := WithLow(word, Low(Sum(symbol, SignExtend(Low(word)))));
    case R32 => r := Sum(word, symbol);
    case ROther => r := word;
  }

  // ----- What the patched words say -----

  /** No two relocations patch the same word. */
  ghost predicate DistinctTargets(words: seq<bv32>, relocations: seq<ElfRelocation>, lookup: SymbolLookup) {
    forall i, j ::
      0 <= i < j < |relocations| && Applies(words, relocations[i], lookup) && Applies(words, relocations[j], lookup) ==>
        relocations[i].WordIndex() != relocations[j].WordIndex()
  }

  ghost predicate Patches(words: seq<bv32>, r: ElfRelocation, lookup: SymbolLookup, w: nat) {
    Applies(words, r, lookup) && r.WordIndex() == w
  }

  /** A word that no relocation patches stays as it is. */
  lemma {:induction false} UntouchedWords(
    words: seq<bv32>, relocations: seq<ElfRelocation>, lookup: SymbolLookup, n: nat, w: nat)
    requires n <= |relocations| && w < |words|
    requires forall i :: 0 <= i < n ==> !Patches(words, relocations[i], lookup, w)
    ensures Applied(words, relocations, lookup, n)[w] == words[w]
  {
    hide Patch;
    if n > 0 {
      UntouchedWords(words, relocations, lookup, n - 1, w);
      assert !Patches(words, relocations[n - 1], lookup, w);
    }
  }

  /** A word that one relocation patches is patched from its original value. */
  lemma {:induction false} PatchedOnce(
    words: seq<bv32>, relocations: seq<ElfRelocation>, lookup: SymbolLookup, n: nat, i: nat)
    requires i < n <= |relocations| && DistinctTargets(words, relocations, lookup)
    requires Applies(words, relocations[i], lookup)
    ensures var w := relocations[i].WordIndex();
            Applied(words, relocations, lookup, n)[w] ==
            Patch(words, relocations, i, words[w], lookup(relocations[i].symbolName).value)
  {
    hide Patch;
    var w := relocations[i].WordIndex();
    if n - 1 == i {
      UntouchedWords(words, relocations, lookup, i, w);
    } else {
      PatchedOnce(words, relocations, lookup, n - 1, i);
      assert !Patches(words, relocations[n - 1], lookup, w);
    }
  }

  /** A high relocation and its first later low one, with the code around them patched, build the symbol
      plus the low addend; the rest of both words is kept. */
  lemma HiLoPair(words: seq<bv32>, relocations: seq<ElfRelocation>, lookup: SymbolLookup, i: nat, j: nat)
    requires DistinctTargets(words, relocations, lookup)
    requires i < |relocations| && relocations[i].kind.RHi16? && Applies(words, relocations[i], lookup)
    requires FirstLo(relocations, relocations[i].symbolName, i + 1) == Some(j)
    requires relocations[j].WordIndex() < |words|
    ensures var patched := Applied(words, relocations, lookup, |relocations|);
      var hi, lo := patched[relocations[i].WordIndex()], patched[relocations[j].WordIndex()];
      var wi, wj := words[relocations[i].WordIndex()], words[relocations[j].WordIndex()];
      && HiLo(Low(hi), Low(lo)) == Sum(lookup(relocations[i].symbolName).value, SignExtend(Low(wj)))
      && Upper(hi) == Upper(wi) && Upper(lo) == Upper(wj)
  {
    hide WithLow, HighHalf, Carried, Sum, Low, SignExtend, HiLo, Applied, WithTarget, DistinctTargets, Upper;
    var symbol := lookup(relocations[i].symbolName).value;
    var wi, wj := words[relocations[i].WordIndex()], words[relocations[j].WordIndex()];
    var full := Sum(symbol, SignExtend(Low(wj)));
    PatchedOnce(words, relocations, lookup, |relocations|, i);
    PatchedOnce(words, relocations, lookup, |relocations|, j);
    LowOfWithLow(wi, HighHalf(Carried(full)));
    LowOfWithLow(wj, Low(full));
    HiLoIdentity(full);
  }

  lemma AddsNothing(x: bv32, half: bv16)
    ensures Sum(x, UpperHalf(half)) == x <==> half == 0
  {
  }

  /** The address that the ABI asks for, with the high half in the word as part of the addend, comes out exactly
      when that half is zero. */
  lemma HighAddendExactly(words: seq<bv32>, relocations: seq<ElfRelocation>, lookup: SymbolLookup, i: nat, j: nat)
    requires DistinctTargets(words, relocations, lookup)
    requires i < |relocations| && relocations[i].kind.RHi16? && Applies(words, relocations[i], lookup)
    requires FirstLo(relocations, relocations[i].symbolName, i + 1) == Some(j)
    requires relocations[j].WordIndex() < |words|
    ensures var patched := Applied(words, relocations, lookup, |relocations|);
      var hi, lo := patched[relocations[i].WordIndex()], patched[relocations[j].WordIndex()];
      var wi, wj := words[relocations[i].WordIndex()], words[relocations[j].WordIndex()];
      var symbol := lookup(relocations[i].symbolName).value;
      HiLo(Low(hi), Low(lo)) == Sum(Sum(symbol, SignExtend(Low(wj))), UpperHalf(Low(wi))) <==> Low(wi) == 0
  {
    hide WithLow, HighHalf, Carried, Sum, Low, SignExtend, HiLo, Applied, WithTarget, DistinctTargets, Upper, UpperHalf;
    HiLoPair(words, relocations, lookup, i, j);
    var symbol := lookup(relocations[i].symbolName).value;
    AddsNothing(
      Sum(symbol, SignExtend(Low(words[relocations[j].WordIndex()]))), Low(words[relocations[i].WordIndex()]));
  }

  /** lui $a0, 1 and addiu $a0, $a0, 0 against a symbol at 0x80000000 build the symbol alone, not 0x80010000. */
  lemma HighAddendIsIgnored()
    ensures var words: seq<bv32> := [0x3C040001, 0x24840000];
      var relocations := [ElfRelocation(0, RHi16, "x"), ElfRelocation(4, RLo16, "x")];
      var patched := Applied(words, relocations, name => Some(0x80000000), 2);
      HiLo(Low(patched[0]), Low(patched[1])) == 0x80000000 != Sum(0x80000000, UpperHalf(Low(words[0])))
  {
    var words: seq<bv32> := [0x3C040001, 0x24840000];
    var relocations := [ElfRelocation(0, RHi16, "x"), ElfRelocation(4, RLo16, "x")];
    var lookup: SymbolLookup := name => Some(0x80000000);
    assert FirstLo(relocations, "x", 1) == Some(1);
    assert Low(0x3C040001) == 1 && UpperHalf(1) == 0x10000 && Sum(0x80000000, 0x10000) == 0x80010000;
    assert Low(0x24840000) == 0 && SignExtend(0) == 0 && Sum(0x80000000, 0) == 0x80000000;
    hide WithLow, HighHalf, Carried, Sum, Low, SignExtend, HiLo, Applied, WithTarget, Upper, UpperHalf;
    HiLoPair(words, relocations, lookup, 0, 1);
  }

  lemma FieldReplaced(word: bv32, field: bv32)
    ensures JumpField(WithField(word, field)) == JumpField(field)
    ensures MajorOp(WithField(word, field)) == MajorOp(word)
  {
  }

  lemma FieldShifted(t: bv32)
    ensures Times4(JumpField(Quarter(t))) == WithinRegion(t)
  {
  }

  lemma UnderGivesBack(t: bv32, vram: bv32)
    requires t & 3 == 0 && t & 0xF0000000 == vram & 0xF0000000
    ensures (vram & 0xF0000000) | (t & 0x0FFFFFFC) == t
  {
  }

  lemma UnderIsAligned(t: bv32, vram: bv32)
    ensures ((vram & 0xF0000000) | (t & 0x0FFFFFFC)) & 3 == 0
    ensures ((vram & 0xF0000000) | (t & 0x0FFFFFFC)) & 0xF0000000 == vram & 0xF0000000
  {
  }

  lemma UnderRegion(t: bv32, vram: bv32)
    ensures Under(vram, WithinRegion(t)) == t <==> Aligned(t) && SameRegion(t, vram)
  {
    if Aligned(t) && SameRegion(t, vram) {
      UnderGivesBack(t, vram);
    } else {
      UnderIsAligned(t, vram);
    }
  }

  lemma RegionJoined(t: bv32, vram: bv32)
    ensures Joined(vram, JumpField(Quarter(t))) == t <==> Aligned(t) && SameRegion(t, vram)
  {
    hide Times4, JumpField, Quarter, WithinRegion, Under, Aligned, SameRegion;
    FieldShifted(t);
    UnderRegion(t, vram);
  }

  /** A patched jump leads to the moved target exactly when that is word-aligned and in the same 256 MB
      region; its opcode is kept either way. */
  lemma JumpsMove(word: bv32, symbol: bv32, vram: bv32)
    ensures JumpLeads(WithTarget(word, symbol), vram) == MovedTarget(word, symbol) <==>
            Aligned(MovedTarget(word, symbol)) && SameRegion(MovedTarget(word, symbol), vram)
    ensures MajorOp(WithTarget(word, symbol)) == MajorOp(word)
  {
    hide WithField, MovedTarget, Aligned, SameRegion, JumpField, Joined, Quarter, MajorOp;
    FieldReplaced(word, Quarter(MovedTarget(word, symbol)));
    RegionJoined(MovedTarget(word, symbol), vram);
  }

  lemma ImmediateOpcodeKept(word: bv32, low: bv16)
    ensures MajorOp(WithLow(word, low)) == MajorOp(word)
    ensures RsField(WithLow(word, low)) == RsField(word) && RtField(WithLow(word, low)) == RtField(word)
  {
  }

  predicate SameFields(x: Instruction, y: Instruction) {
    x.target == y.target && x.vram == y.vram && x.immediate == y.immediate
  }

  lemma Cop1KeepsFields(base: Instruction, word: bv32)
    ensures SameFields(DecodeCop1(base, word), base)
  {
    hide DecodeCop1Move, DecodeCop1Float, DecodeBc1, RsField, RtField, RdField, SaField, Funct, ToRegister, ToFpRegister;
  }

  lemma OthersKeepFields(base: Instruction, word: bv32)
    ensures SameFields(DecodeImmediate(base, word), base)
    ensures SameFields(DecodeRegister(base, word), base)
    ensures SameFields(DecodeCop0(base, word), base)
  {
    hide DecodeMajor, DecodeSpecial, RsField, RtField, RdField, Funct, ToRegister, ToFpRegister;
  }

  /** The decoder reads the fields that relocations patch. */
  lemma DecodedFields(word: bv32, vram: bv32)
    ensures var x := DecodeInstruction(word, vram);
      x.target == JumpField(word) && x.vram == vram && x.immediate == Low(word)
  {
    hide DecodeImmediate, DecodeRegister, DecodeCop0, DecodeCop1, DecodeRegimm, MajorOp, RsField, RtField, ToRegister;
    var base := Instruction(word, vram, Unknown, None, None, None, None, None, None,
                            (word & 0xFFFF) as bv16, SaField(word), word & 0x03FFFFFF);
    hide SaField;
    Cop1KeepsFields(base, word);
    OthersKeepFields(base, word);
  }

  /** The decoded jump of a patched word goes to the moved target, under the same condition. */
  lemma DecodedJump(word: bv32, symbol: bv32, vram: bv32)
    ensures var x := DecodeInstruction(WithTarget(word, symbol), vram);
      x.JumpTarget() == MovedTarget(word, symbol) <==>
        Aligned(MovedTarget(word, symbol)) && SameRegion(MovedTarget(word, symbol), vram)
  {
    hide WithTarget, MovedTarget, Aligned, SameRegion, JumpField, Low, DecodeInstruction;
    JumpsMove(word, symbol, vram);
    DecodedFields(WithTarget(word, symbol), vram);
    JumpTargetJoins(DecodeInstruction(WithTarget(word, symbol), vram));
  }

  lemma JumpTargetJoins(x: Instruction)
    ensures x.JumpTarget() == Joined(x.vram, x.target)
  {
  }
}
