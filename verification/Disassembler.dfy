/** Slicing a code buffer into functions: core/disassembler.cc. */
module Disassembly {
  import opened Blocks
  import opened Mips
  import opened Symbols
  import opened Wrappers

  // ----- Words and addresses of a buffer -----

  function BigEndian(b0: bv8, b1: bv8, b2: bv8, b3: bv8): bv32 {
    ((b0 as bv32) << 24) | ((b1 as bv32) << 16) | ((b2 as bv32) << 8) | (b3 as bv32)
  }

  function Bytes(word: bv32): (r: seq<bv8>)
    ensures |r| == 4
  {
    [((word >> 24) & 0xFF) as bv8, ((word >> 16) & 0xFF) as bv8, ((word >> 8) & 0xFF) as bv8, (word & 0xFF) as bv8]
  }

  lemma BytesOfWord(b0: bv8, b1: bv8, b2: bv8, b3: bv8)
    ensures Bytes(BigEndian(b0, b1, b2, b3)) == [b0, b1, b2, b3]
  {
  }

  /** How many whole words a buffer holds. */
  function WordCount(code: seq<bv8>): nat { |code| / 4 }

  function WordAt(code: seq<bv8>, k: nat): bv32
    requires k < WordCount(code)
  {
    BigEndian(code[4 * k], code[4 * k + 1], code[4 * k + 2], code[4 * k + 3])
  }

  /** Addresses are 32 bits wide. */
  function Wrap(x: int): Vram { x % 0x1_0000_0000 }

  function Pc(base: Vram, k: nat): Vram { Wrap(base + 4 * k) }

  lemma PcOffset(base: Vram, i: nat, k: nat)
    ensures Pc(Pc(base, i), k) == Pc(base, i + k)
  {
  }

  function ToBits(a: Vram): bv32 { a as bv32 }

  function InstructionAt(code: seq<bv8>, base: Vram, k: nat): Instruction
    requires k < WordCount(code)
  {
    DecodeInstruction(WordAt(code, k), ToBits(Pc(base, k)))
  }

  function BranchAddress(i: Instruction): Vram { Address(i.BranchTarget()) }

  function JumpAddress(i: Instruction): Vram { Address(i.JumpTarget()) }

  lemma SuffixWords(code: seq<bv8>, base: Vram, i: nat, k: nat)
    requires 4 * i <= |code| && k < WordCount(code[4 * i..])
    ensures i + k < WordCount(code) && WordAt(code[4 * i..], k) == WordAt(code, i + k)
    ensures InstructionAt(code[4 * i..], Pc(base, i), k) == InstructionAt(code, base, i + k)
  {
    hide BigEndian, DecodeInstruction, ToBits;
    PcOffset(base, i, k);
  }

  // ----- Where a function ends -----

  /** What is known of addresses: registered entrypoints and, optionally, symbols. */
  datatype Context = Context(entrypoints: set<Vram>, symbols: Option<SymbolTable>) {
    ghost predicate Valid() { symbols.Some? ==> symbols.value.Valid() }

    predicate IsEntry(a: Vram)
      requires Valid()
    {
      || a in entrypoints
      || (symbols.Some? && symbols.value.HasAddress(a)
          && symbols.value.FindByAddress(a).Some? && symbols.value.FindByAddress(a).value.kind.Func?)
    }

    /** Padding does not run over a marked address. */
    predicate IsMarked(a: Vram) { a in entrypoints || (symbols.Some? && symbols.value.HasAddress(a)) }

    lemma EntryIsMarked(a: Vram)
      requires Valid() && IsEntry(a)
      ensures IsMarked(a)
    {
    }
  }

  /** Word j is a branch forward, or a j forward inside the buffer, and its target lies past address a. */
  predicate JumpsPast(code: seq<bv8>, base: Vram, j: nat, a: int)
    requires j < WordCount(code)
  {
    var i := InstructionAt(code, base, j);
    if i.IsBranch() then BranchAddress(i) > Pc(base, j) && BranchAddress(i) > a
    else i.opcode.J? && Pc(base, j) < JumpAddress(i) < base + |code| && JumpAddress(i) > a
  }

  predicate IsReturnAt(code: seq<bv8>, base: Vram, k: nat)
    requires k < WordCount(code)
  {
    InstructionAt(code, base, k).IsReturn()
  }

  /** A return that nothing up to it jumps over. */
  ghost predicate FinalReturn(code: seq<bv8>, base: Vram, k: nat)
    requires k < WordCount(code)
  {
    IsReturnAt(code, base, k) && forall j :: 0 <= j <= k ==> !JumpsPast(code, base, j, Pc(base, k))
  }

  predicate NextEntry(c: Context, base: Vram, k: nat)
    requires c.Valid()
  {
    k > 0 && c.IsEntry(Pc(base, k))
  }

  /** Nothing among the first n words ends the function. */
  ghost predicate RunsOn(c: Context, code: seq<bv8>, base: Vram, n: nat)
    requires c.Valid() && n <= WordCount(code)
  {
    forall k :: 0 <= k < n ==> !NextEntry(c, base, k) && !FinalReturn(code, base, k)
  }

  predicate IsPadding(c: Context, code: seq<bv8>, base: Vram, k: nat)
    requires k < WordCount(code)
  {
    !c.IsMarked(Pc(base, k)) && WordAt(code, k) == 0
  }

  /** Words first up to last are padding, and the next one is not. */
  ghost predicate PaddedUpTo(c: Context, code: seq<bv8>, base: Vram, first: nat, last: nat) {
    && first <= last <= WordCount(code)
    && (forall k :: first <= k < last ==> IsPadding(c, code, base, k))
    && (last == WordCount(code) || !IsPadding(c, code, base, last))
  }

  datatype Ending = AtEntry(k: nat) | AtReturn(k: nat) | AtEnd

  /** The function at the start of code is its first end bytes. */
  ghost predicate Ends(c: Context, code: seq<bv8>, base: Vram, end: nat, ending: Ending)
    requires c.Valid()
  {
    match ending
    case AtEntry(k) =>
      k < WordCount(code) && RunsOn(c, code, base, k) && NextEntry(c, base, k) && end == 4 * k
    case AtReturn(k) =>
      && k < WordCount(code) && RunsOn(c, code, base, k)
      && !NextEntry(c, base, k) && FinalReturn(code, base, k)
      && if k + 2 > WordCount(code) then end == |code|
         else end % 4 == 0 && PaddedUpTo(c, code, base, k + 2, end / 4)
    case AtEnd => RunsOn(c, code, base, WordCount(code)) && end == |code|
  }

  ghost predicate IsBoundary(c: Context, code: seq<bv8>, base: Vram, end: nat)
    requires c.Valid()
  {
    exists ending :: Ends(c, code, base, end, ending)
  }

  /** The target of word k when it is a forward branch, or a forward j inside the buffer; else 0. */
  function ForwardTarget(code: seq<bv8>, base: Vram, k: nat): Vram
    requires k < WordCount(code)
  {
    var i := InstructionAt(code, base, k);
    if i.IsBranch() then (if BranchAddress(i) > Pc(base, k) then BranchAddress(i) else 0)
    else if i.opcode.J? && Pc(base, k) < JumpAddress(i) < base + |code| then JumpAddress(i)
    else 0
  }

  lemma ForwardJumpsPast(code: seq<bv8>, base: Vram, k: nat, a: nat)
    requires k < WordCount(code)
    ensures JumpsPast(code, base, k, a) <==> ForwardTarget(code, base, k) > a
  {
    hide InstructionAt;
  }

  /** Extends the function over padding words from first on. */
  method AbsorbPadding(c: Context, code: seq<bv8>, base: Vram, first: nat) returns (last: nat)
    requires first <= WordCount(code)
    ensures PaddedUpTo(c, code, base, first, last)
  {
    hide Pc, WordAt;
    last := first;
    while 4 * last + 4 <= |code|
      invariant first <= last <= WordCount(code)
      invariant forall k :: first <= k < last ==> IsPadding(c, code, base, k)
    {
      if c.IsMarked(Pc(base, last)) {
        break;
      }
      if WordAt(code, last) != 0 {
        break;
      }
      last := last + 1;
    }
  }

  /** The boundary pass. */
  method FindEnd(c: Context, code: seq<bv8>, base: Vram)
    returns (end: nat, hasReturn: bool, ghost ending: Ending)
    requires c.Valid() && |code| >= 4
    ensures Ends(c, code, base, end, ending)
    ensures hasReturn <==> exists k :: 0 <= k < end / 4 && IsReturnAt(code, base, k)
  {
    hide Context.Valid, Context.IsEntry, InstructionAt, Pc, ForwardTarget, JumpsPast, PaddedUpTo;
    hasReturn := false;
    var maxForward := 0;
    var k := 0;
    while 4 * k + 4 <= |code|
      invariant 0 <= k <= WordCount(code)
      invariant RunsOn(c, code, base, k)
      invariant hasReturn <==> exists j :: 0 <= j < k && IsReturnAt(code, base, j)
      invariant forall j :: 0 <= j < k ==> ForwardTarget(code, base, j) <= maxForward
      invariant maxForward == 0 || exists j :: 0 <= j < k && ForwardTarget(code, base, j) == maxForward
    {
      var pc := Pc(base, k);
      if k > 0 && c.IsEntry(pc) {
        end, ending := 4 * k, AtEntry(k);
        return;
      }
      var target := ForwardTarget(code, base, k);
      if target > maxForward {
        maxForward := target;
      }
      if IsReturnAt(code, base, k) {
        hasReturn := true;
        FinalWhenNotPast(code, base, k, maxForward);
        if maxForward <= pc {
          ending := AtReturn(k);
          if 4 * k + 8 <= |code| {
            var last := AbsorbPadding(c, code, base, k + 2);
            PaddingAfter(c, code, base, k + 2, last);
            end := 4 * last;
          } else {
            end := |code|;
          }
          return;
        }
      }
      k := k + 1;
    }
    end, ending := |code|, AtEnd;
  }

  lemma PaddingAfter(c: Context, code: seq<bv8>, base: Vram, first: nat, last: nat)
    requires PaddedUpTo(c, code, base, first, last)
    ensures first <= last <= WordCount(code)
  {
  }

  lemma FinalWhenNotPast(code: seq<bv8>, base: Vram, k: nat, maxForward: nat)
    requires k < WordCount(code) && IsReturnAt(code, base, k)
    requires forall j :: 0 <= j <= k ==> ForwardTarget(code, base, j) <= maxForward
    requires maxForward == 0 || exists j :: 0 <= j <= k && ForwardTarget(code, base, j) == maxForward
    ensures maxForward <= Pc(base, k) <==> FinalReturn(code, base, k)
  {
    hide InstructionAt, ForwardTarget, JumpsPast, Pc;
    forall j | 0 <= j <= k
      ensures JumpsPast(code, base, j, Pc(base, k)) <==> ForwardTarget(code, base, j) > Pc(base, k)
    {
      ForwardJumpsPast(code, base, j, Pc(base, k));
    }
  }

  // ----- What a boundary means -----

  /** The boundary is a function of the buffer and of what is known. */
  lemma EndIsUnique(c: Context, code: seq<bv8>, base: Vram, end: nat, ending: Ending, end': nat, ending': Ending)
    requires c.Valid() && Ends(c, code, base, end, ending) && Ends(c, code, base, end', ending')
    ensures end == end' && ending == ending'
  {
    hide Context.Valid, NextEntry, FinalReturn, IsPadding;
    var k := if ending.AtEnd? then WordCount(code) else ending.k;
    var k' := if ending'.AtEnd? then WordCount(code) else ending'.k;
    assert k == k';
    if ending.AtReturn? && k + 2 <= WordCount(code) {
      PaddingIsUnique(c, code, base, k + 2, end / 4, end' / 4);
    }
  }

  lemma PaddingIsUnique(c: Context, code: seq<bv8>, base: Vram, first: nat, last: nat, last': nat)
    requires PaddedUpTo(c, code, base, first, last) && PaddedUpTo(c, code, base, first, last')
    ensures last == last'
  {
    hide IsPadding;
  }

  /** Every function takes at least a word, and stops at a word boundary or at the end of the buffer. */
  lemma EndInBuffer(c: Context, code: seq<bv8>, base: Vram, end: nat, ending: Ending)
    requires c.Valid() && Ends(c, code, base, end, ending) && |code| >= 4
    ensures 4 <= end <= |code| && (end % 4 == 0 || end == |code|)
  {
    hide Context.Valid, IsPadding, RunsOn, FinalReturn;
  }

  /** An entrypoint inside a function can only be the delay slot of the return that ends it. */
  lemma InteriorEntryIsDelaySlot(c: Context, code: seq<bv8>, base: Vram, end: nat, ending: Ending, k: nat)
    requires c.Valid() && Ends(c, code, base, end, ending)
    requires 0 < k < WordCount(code) && 4 * k < end && c.IsEntry(Pc(base, k))
    ensures ending == AtReturn(k - 1) && IsReturnAt(code, base, k - 1)
  {
    hide Context.Valid, Context.IsEntry, Context.IsMarked, Pc, IsReturnAt, JumpsPast, WordAt;
    c.EntryIsMarked(Pc(base, k));
    assert NextEntry(c, base, k) && !IsPadding(c, code, base, k);
  }

  /** No branch of a function that a return ends leads forward past that return, nor does a j that stays
      in the buffer. */
  lemma NothingJumpsPastTheReturn(c: Context, code: seq<bv8>, base: Vram, end: nat, k: nat, j: nat)
    requires c.Valid() && Ends(c, code, base, end, AtReturn(k)) && j <= k
    ensures var i, from, past := InstructionAt(code, base, j), Pc(base, j), Pc(base, k);
      && (i.IsBranch() ==> BranchAddress(i) <= from || BranchAddress(i) <= past)
      && (i.opcode.J? && JumpAddress(i) < base + |code| ==> JumpAddress(i) <= from || JumpAddress(i) <= past)
    ensures base + |code| <= 0x1_0000_0000 ==>
      var i := InstructionAt(code, base, j);
      && (i.IsBranch() ==> BranchAddress(i) <= base + 4 * k)
      && (i.opcode.J? && JumpAddress(i) < base + |code| ==> JumpAddress(i) <= base + 4 * k)
  {
    hide Context.Valid, InstructionAt, RunsOn, NextEntry, PaddedUpTo;
    assert !JumpsPast(code, base, j, Pc(base, k));
    BranchIsNoJump(InstructionAt(code, base, j).opcode);
    OrderedPcs(base, j, k);
  }

  lemma BranchIsNoJump(op: Opcode)
    ensures op.J? ==> !IsBranchOp(op)
  {
  }

  lemma OrderedPcs(base: Vram, j: nat, k: nat)
    requires j <= k
    ensures base + 4 * k < 0x1_0000_0000 ==> Pc(base, j) == base + 4 * j && Pc(base, k) == base + 4 * k
  {
  }

  // ----- One function -----

  datatype DisassembledFunction = DisassembledFunction(
    name: string,
    vramStart: Vram,
    vramEnd: Vram,
    instructions: seq<Instruction>,
    labels: set<Vram>,
    isFunction: bool)
  {
    /** vram_end - vram_start in 32 bits. */
    function Size(): nat { Wrap(vramEnd - vramStart) }
  }

  function Code(code: seq<bv8>, base: Vram, n: nat): (r: seq<Instruction>)
    requires n <= WordCount(code)
  {
    seq(n, k requires 0 <= k < n => InstructionAt(code, base, k))
  }

  predicate Targets(code: seq<bv8>, base: Vram, k: nat, a: Vram)
    requires k < WordCount(code)
  {
    var i := InstructionAt(code, base, k);
    if i.IsBranch() then a == BranchAddress(i) else i.opcode.J? && a == JumpAddress(i)
  }

  /** Some word of the first n leads to address a. */
  ghost predicate TargetedFrom(code: seq<bv8>, base: Vram, n: nat, a: Vram)
    requires n <= WordCount(code)
  {
    exists k :: 0 <= k < n && Targets(code, base, k, a)
  }

  ghost predicate HoldsReturn(code: seq<bv8>, base: Vram, n: nat)
    requires n <= WordCount(code)
  {
    exists k :: 0 <= k < n && IsReturnAt(code, base, k)
  }

  function NameOf(c: Context, a: Vram): string
    requires c.Valid()
  {
    if c.symbols.Some? then c.symbols.value.LookupOrSynthesizeName(a, Func) else SynthesizedName(a, Func)
  }

  /** f is the function that takes the first end bytes: its words, and a label on each word that is a target
      inside the function or is known as one from elsewhere. */
  ghost predicate Describes(c: Context, outer: set<Vram>, code: seq<bv8>, base: Vram, end: nat, f: DisassembledFunction)
    requires c.Valid()
  {
    && end <= |code|
    && f.name == NameOf(c, base)
    && f.vramStart == base && f.vramEnd == Wrap(base + end)
    && f.instructions == Code(code, base, end / 4)
    && (f.isFunction <==> c.IsEntry(base) || end >= 8 || HoldsReturn(code, base, end / 4))
    && (forall a :: a in f.labels ==> exists k :: 0 <= k < end / 4 && a == Pc(base, k))
    && forall k {:trigger Pc(base, k)} :: 0 <= k < end / 4 ==>
         (Pc(base, k) in f.labels <==>
          Pc(base, k) in outer
          || (base <= Pc(base, k) < f.vramEnd && TargetedFrom(code, base, end / 4, Pc(base, k))))
  }

  class Disassembler {
    const symbols: Option<SymbolTable>
    var knownEntrypoints: set<Vram>
    var segmentLabels: set<Vram>

    constructor (symbols: Option<SymbolTable>, knownEntrypoints: set<Vram>, segmentLabels: set<Vram>)
      ensures this.symbols == symbols
      ensures this.knownEntrypoints == knownEntrypoints && this.segmentLabels == segmentLabels
    {
      this.symbols, this.knownEntrypoints, this.segmentLabels := symbols, knownEntrypoints, segmentLabels;
    }

    function Known(): Context
      reads this
    {
      Context(knownEntrypoints, symbols)
    }

    /** Adds exactly the call targets in memory as entrypoints, and every branch target and every j target
        in the buffer as a label. */
    method PreScanCode(code: seq<bv8>, vramStart: Vram)
      modifies this
      ensures forall a :: a in knownEntrypoints <==>
                a in old(knownEntrypoints) || CalledFrom(code, vramStart, WordCount(code), a)
      ensures forall a :: a in segmentLabels <==>
                a in old(segmentLabels) || LabelledFrom(code, vramStart, WordCount(code), a)
    {
      hide InstructionAt, WordAt, JumpAddress, BranchAddress, InMemory, CalledFrom, LabelledFrom;
      FromNone(code, vramStart);
      var k := 0;
      while 4 * k + 4 <= |code|
        invariant 0 <= k <= WordCount(code)
        invariant forall a :: a in knownEntrypoints <==>
                    a in old(knownEntrypoints) || CalledFrom(code, vramStart, k, a)
        invariant forall a :: a in segmentLabels <==> a in old(segmentLabels) || LabelledFrom(code, vramStart, k, a)
      {
        var i := InstructionAt(code, vramStart, k);
        ghost var known, labels := knownEntrypoints, segmentLabels;
        if i.opcode.Jal? {
          var target := JumpAddress(i);
          if InMemory(target) {
            knownEntrypoints := knownEntrypoints + {target};
          }
        } else if i.IsBranch() {
          segmentLabels := segmentLabels + {BranchAddress(i)};
        } else if i.opcode.J? {
          var target := JumpAddress(i);
          if vramStart <= target < vramStart + |code| {
            segmentLabels := segmentLabels + {target};
          }
        }
        assert forall a :: a in knownEntrypoints <==> a in known || Calls(code, vramStart, k, a);
        assert forall a :: a in segmentLabels <==> a in labels || Labels(code, vramStart, k, a);
        k := k + 1;
        forall a
          ensures CalledFrom(code, vramStart, k, a) <==>
                  CalledFrom(code, vramStart, k - 1, a) || Calls(code, vramStart, k - 1, a)
          ensures LabelledFrom(code, vramStart, k, a) <==>
                  LabelledFrom(code, vramStart, k - 1, a) || Labels(code, vramStart, k - 1, a)
        {
          FromNext(code, vramStart, k - 1, a);
        }
      }
    }

    /** The function at the start of the buffer, or nothing when there is no room for a word. */
    method DisassembleFunction(code: seq<bv8>, vramStart: Vram)
      returns (r: Option<DisassembledFunction>, ghost end: nat, ghost ending: Ending)
      requires Known().Valid()
      ensures r.None? <==> |code| < 4
      ensures r.Some? ==>
        Ends(Known(), code, vramStart, end, ending)
        && Describes(Known(), segmentLabels, code, vramStart, end, r.value)
    {
      hide Context.Valid, Context.IsEntry, Ends, NameOf, Code, TargetedFrom, HoldsReturn;
      if |code| < 4 {
        return None, 0, AtEnd;
      }
      var c := Known();
      var size, hasReturn, how := FindEnd(c, code, vramStart);
      EndInBuffer(c, code, vramStart, size, how);
      end, ending := size, how;
      var vramEnd := Wrap(vramStart + size);
      var localLabels := CollectLabels(code, vramStart, vramEnd, size / 4);
      var instructions, labels := Emit(code, vramStart, size / 4, localLabels, segmentLabels);
      var isFunction := c.IsEntry(vramStart) || size >= 8 || hasReturn;
      assert hasReturn <==> HoldsReturn(code, vramStart, size / 4) by { ReturnHeld(code, vramStart, size / 4); }
      r := Some(DisassembledFunction(NameOf(c, vramStart), vramStart, vramEnd, instructions, labels, isFunction));
    }

    /** Slices the whole buffer, unless a function takes 2^32 bytes or more; the disassembler itself does not
        change. */
    method DisassembleAllFunctions(code: seq<bv8>, vramStart: Vram)
      returns (functions: seq<DisassembledFunction>)
      requires Known().Valid()
      ensures exists run :: SlicedAsFar(run, Known(), segmentLabels, code, vramStart, functions)
    {
      hide Context.Valid, Ends, Describes, Scanned, CalledFrom, LabelledFrom, SlicedSoFar, Oversized;
      var worker := new Disassembler(symbols, knownEntrypoints, segmentLabels);
      worker.PreScanCode(code, vramStart);
      ghost var c := worker.Known();
      functions := [];
      ghost var run := Run(c, worker.segmentLabels, [0]);
      StartsSliced(Known(), segmentLabels, code, vramStart, run);
      ghost var whole, n := true, 0;
      var offset := 0;
      while offset + 4 <= |code|
        invariant 0 <= offset <= |code|
        invariant worker.Known() == c && run.known == c && run.outer == worker.segmentLabels
        invariant Scanned(Known(), segmentLabels, code, vramStart, run.known, run.outer)
        invariant n <= |functions| && SlicedSoFar(run, code, vramStart, functions[..n])
        invariant whole ==> n == |functions| && |run.cuts| == n + 1 && offset == run.cuts[n]
        invariant !whole ==> Oversized(run, code, vramStart, n)
      {
        var f, end, ending := worker.DisassembleFunction(code[offset..], Wrap(vramStart + offset));
        assert f.Some?;
        var size := f.value.Size();
        EndInBuffer(c, code[offset..], Wrap(vramStart + offset), end, ending);
        SizeOfSlice(c, run.outer, code[offset..], Wrap(vramStart + offset), end, f.value);
        assert functions[..|functions|] == functions;
        if whole && end >= 0x1_0000_0000 {
          IsOversized(run, code, vramStart, n, end, ending);
          whole := false;
        }
        if size == 0 {
          break;
        }
        if whole {
          assert size == end;
          SlicedNext(run, code, vramStart, functions, f.value, end, ending);
          run := run.(cuts := run.cuts + [offset + size]);
          n := n + 1;
          assert (functions + [f.value])[..n] == functions + [f.value];
        } else {
          assert (functions + [f.value])[..n] == functions[..n];
        }
        functions := functions + [f.value];
        offset := offset + size;
      }
      assert SlicedAsFar(run, Known(), segmentLabels, code, vramStart, functions) by {
        AsFarAs(run, code, vramStart, functions, n);
      }
    }
  }

  lemma ReturnHeld(code: seq<bv8>, base: Vram, n: nat)
    requires n <= WordCount(code)
    ensures HoldsReturn(code, base, n) <==> exists k :: 0 <= k < n && IsReturnAt(code, base, k)
  {
    hide IsReturnAt;
  }

  /** The targets inside the function. */
  method CollectLabels(code: seq<bv8>, base: Vram, vramEnd: Vram, n: nat) returns (labels: set<Vram>)
    requires n <= WordCount(code)
    ensures forall a :: a in labels <==> base <= a < vramEnd && TargetedFrom(code, base, n, a)
  {
    hide InstructionAt, WordAt;
    labels := {};
    for k := 0 to n
      invariant forall a :: a in labels <==> base <= a < vramEnd && TargetedFrom(code, base, k, a)
    {
      var i := InstructionAt(code, base, k);
      ghost var before := labels;
      if i.IsBranch() {
        var target := BranchAddress(i);
        if base <= target < vramEnd {
          labels := labels + {target};
        }
      } else if i.opcode.J? {
        var target := JumpAddress(i);
        if base <= target < vramEnd {
          labels := labels + {target};
        }
      }
      assert forall a :: a in labels <==> a in before || (base <= a < vramEnd && Targets(code, base, k, a));
      forall a ensures TargetedFrom(code, base, k + 1, a) <==>
                       TargetedFrom(code, base, k, a) || Targets(code, base, k, a)
      {
        TargetedNext(code, base, k, a);
      }
    }
  }

  lemma TargetedNext(code: seq<bv8>, base: Vram, n: nat, a: Vram)
    requires n < WordCount(code)
    ensures TargetedFrom(code, base, n + 1, a) <==> TargetedFrom(code, base, n, a) || Targets(code, base, n, a)
  {
    hide Targets;
  }

  /** The words of the function, and which of them carry a label. */
  method Emit(code: seq<bv8>, base: Vram, n: nat, local: set<Vram>, outer: set<Vram>)
    returns (instructions: seq<Instruction>, labels: set<Vram>)
    requires n <= WordCount(code)
    ensures instructions == Code(code, base, n)
    ensures forall a :: a in labels ==> exists k :: 0 <= k < n && a == Pc(base, k)
    ensures forall k {:trigger Pc(base, k)} :: 0 <= k < n ==>
              (Pc(base, k) in labels <==> Pc(base, k) in local || Pc(base, k) in outer)
  {
    hide InstructionAt, Pc;
    instructions, labels := [], {};
    for k := 0 to n
      invariant instructions == Code(code, base, k)
      invariant forall a :: a in labels <==>
                  exists j :: 0 <= j < k && a == Pc(base, j) && (a in local || a in outer)
    {
      var pc := Pc(base, k);
      if pc in local || pc in outer {
        labels := labels + {pc};
      }
      instructions := instructions + [InstructionAt(code, base, k)];
    }
  }

  predicate InMemory(a: Vram) { 0x8000_0000 <= a < 0x8080_0000 || 0xA000_0000 <= a < 0xA080_0000 }

  predicate Calls(code: seq<bv8>, base: Vram, k: nat, a: Vram)
    requires k < WordCount(code)
  {
    var i := InstructionAt(code, base, k);
    i.opcode.Jal? && a == JumpAddress(i) && InMemory(a)
  }

  predicate Labels(code: seq<bv8>, base: Vram, k: nat, a: Vram)
    requires k < WordCount(code)
  {
    var i := InstructionAt(code, base, k);
    if i.IsBranch() then a == BranchAddress(i)
    else i.opcode.J? && a == JumpAddress(i) && base <= a < base + |code|
  }

  ghost predicate CalledFrom(code: seq<bv8>, base: Vram, n: nat, a: Vram)
    requires n <= WordCount(code)
  {
    exists k :: 0 <= k < n && Calls(code, base, k, a)
  }

  ghost predicate LabelledFrom(code: seq<bv8>, base: Vram, n: nat, a: Vram)
    requires n <= WordCount(code)
  {
    exists k :: 0 <= k < n && Labels(code, base, k, a)
  }

  lemma FromNone(code: seq<bv8>, base: Vram)
    ensures forall a :: !CalledFrom(code, base, 0, a) && !LabelledFrom(code, base, 0, a)
  {
  }

  lemma FromNext(code: seq<bv8>, base: Vram, n: nat, a: Vram)
    requires n < WordCount(code)
    ensures CalledFrom(code, base, n + 1, a) <==> CalledFrom(code, base, n, a) || Calls(code, base, n, a)
    ensures LabelledFrom(code, base, n + 1, a) <==> LabelledFrom(code, base, n, a) || Labels(code, base, n, a)
  {
    hide Calls, Labels;
  }

  // ----- A whole buffer -----

  /** What slicing worked with, and the offsets at which it cut. */
  datatype Run = Run(known: Context, outer: set<Vram>, cuts: seq<nat>)

  ghost predicate Scanned(c: Context, labels: set<Vram>, code: seq<bv8>, base: Vram, known: Context, outer: set<Vram>) {
    && known.symbols == c.symbols
    && (forall a :: a in known.entrypoints <==> a in c.entrypoints || CalledFrom(code, base, WordCount(code), a))
    && forall a :: a in outer <==> a in labels || LabelledFrom(code, base, WordCount(code), a)
  }

  ghost predicate SliceOf(run: Run, code: seq<bv8>, base: Vram, start: nat, stop: nat, f: DisassembledFunction)
    requires run.known.Valid()
  {
    && start % 4 == 0 && start + 4 <= stop <= |code|
    && IsBoundary(run.known, code[start..], Wrap(base + start), stop - start)
    && Describes(run.known, run.outer, code[start..], Wrap(base + start), stop - start, f)
  }

  ghost predicate SlicedSoFar(run: Run, code: seq<bv8>, base: Vram, functions: seq<DisassembledFunction>)
    requires run.known.Valid()
  {
    && |run.cuts| == |functions| + 1 && run.cuts[0] == 0
    && run.cuts[|functions|] <= |code|
    && (run.cuts[|functions|] % 4 == 0 || run.cuts[|functions|] == |code|)
    && forall i, j :: 0 <= i < |functions| && j == i + 1 ==>
         SliceOf(run, code, base, run.cuts[i], run.cuts[j], functions[i])
  }

  /** The functions are the slices of the buffer, from its start to less than a word before its end. */
  ghost predicate Sliced(run: Run, code: seq<bv8>, base: Vram, functions: seq<DisassembledFunction>)
    requires run.known.Valid()
  {
    SlicedSoFar(run, code, base, functions) && run.cuts[|functions|] + 4 > |code|
  }

  lemma StartsSliced(c: Context, labels: set<Vram>, code: seq<bv8>, base: Vram, run: Run)
    requires c.Valid() && run.known.symbols == c.symbols && run.cuts == [0]
    requires forall a :: a in run.known.entrypoints <==>
               a in c.entrypoints || CalledFrom(code, base, WordCount(code), a)
    requires forall a :: a in run.outer <==> a in labels || LabelledFrom(code, base, WordCount(code), a)
    ensures run.known.Valid() && Scanned(c, labels, code, base, run.known, run.outer) && SlicedSoFar(run, code, base, [])
  {
  }

  lemma SizeOfSlice(c: Context, outer: set<Vram>, code: seq<bv8>, base: Vram, end: nat, f: DisassembledFunction)
    requires c.Valid() && Describes(c, outer, code, base, end, f)
    ensures f.Size() == Wrap(end) <= end
  {
    hide Context.Valid, NameOf, Code, TargetedFrom, HoldsReturn, Pc;
    WrapDifference(base, end);
  }

  lemma WrapDifference(base: Vram, n: nat)
    ensures Wrap(Wrap(base + n) - base) == Wrap(n) <= n
  {
  }

  lemma SlicedNext(run: Run, code: seq<bv8>, base: Vram, functions: seq<DisassembledFunction>,
                   f: DisassembledFunction, size: nat, ending: Ending)
    requires run.known.Valid() && SlicedSoFar(run, code, base, functions)
    requires var start := run.cuts[|functions|];
             && start + 4 <= |code|
             && Ends(run.known, code[start..], Wrap(base + start), size, ending)
             && Describes(run.known, run.outer, code[start..], Wrap(base + start), size, f)
    ensures SlicedSoFar(run.(cuts := run.cuts + [run.cuts[|functions|] + size]), code, base, functions + [f])
  {
    hide Context.Valid, Ends, Describes, SliceOf;
    var start := run.cuts[|functions|];
    NextSlice(run, code, base, start, f, size, ending);
    var next := run.(cuts := run.cuts + [start + size]);
    forall i, j | 0 <= i < |functions| + 1 && j == i + 1
      ensures SliceOf(next, code, base, next.cuts[i], next.cuts[j], (functions + [f])[i])
    {
      if i < |functions| {
        SliceOfAnyCuts(run, next, code, base, run.cuts[i], run.cuts[j], functions[i]);
      } else {
        SliceOfAnyCuts(run, next, code, base, start, start + size, f);
      }
    }
  }

  lemma NextSlice(run: Run, code: seq<bv8>, base: Vram, start: nat, f: DisassembledFunction, size: nat, ending: Ending)
    requires run.known.Valid() && start % 4 == 0 && start + 4 <= |code|
    requires Ends(run.known, code[start..], Wrap(base + start), size, ending)
    requires Describes(run.known, run.outer, code[start..], Wrap(base + start), size, f)
    ensures SliceOf(run, code, base, start, start + size, f)
    ensures start + size <= |code| && ((start + size) % 4 == 0 || start + size == |code|)
  {
    hide Context.Valid, Ends, Describes;
    EndInBuffer(run.known, code[start..], Wrap(base + start), size, ending);
  }

  lemma SliceOfAnyCuts(run: Run, run': Run, code: seq<bv8>, base: Vram, start: nat, stop: nat, f: DisassembledFunction)
    requires run.known.Valid() && SliceOf(run, code, base, start, stop, f)
    requires run'.known == run.known && run'.outer == run.outer
    ensures SliceOf(run', code, base, start, stop, f)
  {
    hide Context.Valid, IsBoundary, Describes;
  }

  /** The functions are those slices, for a scan of the buffer by a disassembler that knows c and labels. */
  ghost predicate SlicedBy(run: Run, c: Context, labels: set<Vram>, code: seq<bv8>, base: Vram,
                           functions: seq<DisassembledFunction>)
  {
    run.known.Valid() && Scanned(c, labels, code, base, run.known, run.outer) && Sliced(run, code, base, functions)
  }

  ghost predicate IsTooLong(c: Context, code: seq<bv8>, base: Vram)
    requires c.Valid()
  {
    exists end: nat :: IsBoundary(c, code, base, end) && end >= 0x1_0000_0000
  }

  /** The slice that begins at the last of n cuts takes 2^32 bytes or more: its size, in 32 bits, is wrong. */
  ghost predicate Oversized(run: Run, code: seq<bv8>, base: Vram, n: nat)
    requires run.known.Valid()
  {
    && |run.cuts| == n + 1 && run.cuts[n] + 4 <= |code|
    && IsTooLong(run.known, code[run.cuts[n]..], Wrap(base + run.cuts[n]))
  }

  /** The first functions are slices, and either they are all and cover the buffer, or an oversized one
      follows. */
  ghost predicate SlicedAsFar(run: Run, c: Context, labels: set<Vram>, code: seq<bv8>, base: Vram,
                              functions: seq<DisassembledFunction>)
  {
    && run.known.Valid() && Scanned(c, labels, code, base, run.known, run.outer)
    && AsFar(run, code, base, functions)
  }

  ghost predicate AsFar(run: Run, code: seq<bv8>, base: Vram, functions: seq<DisassembledFunction>)
    requires run.known.Valid()
  {
    && 0 < |run.cuts| <= |functions| + 1 && SlicedSoFar(run, code, base, functions[..|run.cuts| - 1])
    && (Sliced(run, code, base, functions) || Oversized(run, code, base, |run.cuts| - 1))
  }

  lemma AsFarAs(run: Run, code: seq<bv8>, base: Vram, functions: seq<DisassembledFunction>, n: nat)
    requires run.known.Valid() && n <= |functions| && SlicedSoFar(run, code, base, functions[..n])
    requires (n == |functions| && |run.cuts| == n + 1 && run.cuts[n] + 4 > |code|) || Oversized(run, code, base, n)
    ensures AsFar(run, code, base, functions)
  {
    hide Context.Valid, SliceOf;
    assert functions[..|functions|] == functions;
    assert |run.cuts| == n + 1;
  }

  lemma IsOversized(run: Run, code: seq<bv8>, base: Vram, n: nat, end: nat, ending: Ending)
    requires run.known.Valid() && |run.cuts| == n + 1 && run.cuts[n] + 4 <= |code| && end >= 0x1_0000_0000
    requires Ends(run.known, code[run.cuts[n]..], Wrap(base + run.cuts[n]), end, ending)
    ensures Oversized(run, code, base, n)
  {
    hide Context.Valid, Ends, Wrap;
    assert IsBoundary(run.known, code[run.cuts[n]..], Wrap(base + run.cuts[n]), end);
  }

  /** A buffer below 2^32 bytes holds no oversized function: it is sliced whole. */
  lemma SmallBufferIsSliced(run: Run, c: Context, labels: set<Vram>, code: seq<bv8>, base: Vram,
                            functions: seq<DisassembledFunction>)
    requires SlicedAsFar(run, c, labels, code, base, functions) && |code| < 0x1_0000_0000
    ensures SlicedBy(run, c, labels, code, base, functions)
  {
    hide Context.Valid, Ends, Scanned, Sliced, SlicedSoFar, Wrap;
    if Oversized(run, code, base, |run.cuts| - 1) {
      var at := run.cuts[|run.cuts| - 1];
      var end: nat :| IsBoundary(run.known, code[at..], Wrap(base + at), end) && end >= 0x1_0000_0000;
      var ending :| Ends(run.known, code[at..], Wrap(base + at), end, ending);
      EndInBuffer(run.known, code[at..], Wrap(base + at), end, ending);
      assert false;
    }
  }

  // ----- What slicing a buffer keeps -----

  lemma SliceAt(run: Run, code: seq<bv8>, base: Vram, functions: seq<DisassembledFunction>, i: nat)
    requires run.known.Valid() && SlicedSoFar(run, code, base, functions) && i < |functions|
    ensures SliceOf(run, code, base, run.cuts[i], run.cuts[i + 1], functions[i])
  {
    hide Context.Valid, SliceOf;
  }

  lemma SliceFacts(run: Run, code: seq<bv8>, base: Vram, start: nat, stop: nat, f: DisassembledFunction)
    requires run.known.Valid() && SliceOf(run, code, base, start, stop, f)
    ensures start % 4 == 0 && start + 4 <= stop <= |code|
    ensures f.vramStart == Pc(base, start / 4) && f.vramEnd == Wrap(base + stop)
    ensures f.instructions == Code(code[start..], Pc(base, start / 4), (stop - start) / 4)
  {
    hide Context.Valid, Code, NameOf, TargetedFrom, HoldsReturn, IsBoundary;
    WrapTwice(base, start, stop - start);
  }

  lemma WrapTwice(base: Vram, i: nat, k: nat)
    ensures Wrap(Wrap(base + i) + k) == Wrap(base + i + k)
  {
  }

  lemma CodeSplits(code: seq<bv8>, base: Vram, i: nat, n: nat)
    requires 4 * i <= |code| && n <= WordCount(code[4 * i..])
    ensures Code(code, base, i) + Code(code[4 * i..], Pc(base, i), n) == Code(code, base, i + n)
  {
    hide InstructionAt, Pc;
    forall k | 0 <= k < n
      ensures InstructionAt(code[4 * i..], Pc(base, i), k) == InstructionAt(code, base, i + k)
    {
      SuffixWords(code, base, i, k);
    }
  }

  function AllInstructions(functions: seq<DisassembledFunction>): seq<Instruction> {
    if functions == [] then []
    else AllInstructions(functions[..|functions| - 1]) + functions[|functions| - 1].instructions
  }

  lemma {:induction false} PrefixTiles(run: Run, code: seq<bv8>, base: Vram, functions: seq<DisassembledFunction>, i: nat)
    requires run.known.Valid() && SlicedSoFar(run, code, base, functions) && i <= |functions|
    ensures run.cuts[i] <= |code| && AllInstructions(functions[..i]) == Code(code, base, run.cuts[i] / 4)
  {
    hide Context.Valid, SliceOf, Code, Pc;
    if i == 0 {
      assert Code(code, base, 0) == [] by { CodeOfNothing(code, base); }
    } else {
      PrefixTiles(run, code, base, functions, i - 1);
      SliceAt(run, code, base, functions, i - 1);
      var start, stop := run.cuts[i - 1], run.cuts[i];
      SliceFacts(run, code, base, start, stop, functions[i - 1]);
      assert start == 4 * (start / 4);
      CodeSplits(code, base, start / 4, (stop - start) / 4);
      assert start / 4 + (stop - start) / 4 == stop / 4;
      assert functions[..i][..i - 1] == functions[..i - 1];
    }
  }

  lemma CodeOfNothing(code: seq<bv8>, base: Vram)
    ensures Code(code, base, 0) == []
  {
  }

  /** Functions are adjacent, each takes at least a word, and together they hold every word of the buffer,
      once and in order. */
  lemma FunctionsTile(run: Run, code: seq<bv8>, base: Vram, functions: seq<DisassembledFunction>)
    requires run.known.Valid() && Sliced(run, code, base, functions)
    ensures AllInstructions(functions) == Code(code, base, WordCount(code))
    ensures functions != [] ==> functions[0].vramStart == base
    ensures forall i, j :: 0 <= i < |functions| && j == i + 1 ==>
              run.cuts[i] + 4 <= run.cuts[j] && (j < |functions| ==> functions[j].vramStart == functions[i].vramEnd)
  {
    hide Context.Valid, SliceOf, Code, AllInstructions, Wrap, Pc, SlicedSoFar;
    PrefixTiles(run, code, base, functions, |functions|);
    assert functions[..|functions|] == functions;
    LastCut(run, code, base, functions);
    forall i, j | 0 <= i < |functions| && j == i + 1
      ensures run.cuts[i] + 4 <= run.cuts[j] && (j < |functions| ==> functions[j].vramStart == functions[i].vramEnd)
    {
      Adjacent(run, code, base, functions, i);
    }
    if functions != [] {
      StartsAtCut(run, code, base, functions, 0);
      WrapOfBase(base);
    }
  }

  lemma WrapOfBase(base: Vram)
    ensures Wrap(base + 0) == base
  {
  }

  lemma LastCut(run: Run, code: seq<bv8>, base: Vram, functions: seq<DisassembledFunction>)
    requires run.known.Valid() && Sliced(run, code, base, functions)
    ensures |run.cuts| == |functions| + 1 && run.cuts[0] == 0
    ensures run.cuts[|functions|] <= |code| && run.cuts[|functions|] / 4 == WordCount(code)
  {
    hide Context.Valid, SliceOf;
  }

  lemma StartsAtCut(run: Run, code: seq<bv8>, base: Vram, functions: seq<DisassembledFunction>, i: nat)
    requires run.known.Valid() && SlicedSoFar(run, code, base, functions) && i < |functions|
    ensures |run.cuts| == |functions| + 1 && run.cuts[i] + 4 <= run.cuts[i + 1]
    ensures functions[i].vramStart == Wrap(base + run.cuts[i])
    ensures functions[i].vramEnd == Wrap(base + run.cuts[i + 1])
  {
    hide Context.Valid, SliceOf, Wrap;
    SliceAt(run, code, base, functions, i);
    SliceFacts(run, code, base, run.cuts[i], run.cuts[i + 1], functions[i]);
  }

  lemma Adjacent(run: Run, code: seq<bv8>, base: Vram, functions: seq<DisassembledFunction>, i: nat)
    requires run.known.Valid() && SlicedSoFar(run, code, base, functions) && i < |functions|
    ensures |run.cuts| == |functions| + 1 && run.cuts[i] + 4 <= run.cuts[i + 1]
    ensures i + 1 < |functions| ==> functions[i + 1].vramStart == functions[i].vramEnd
  {
    hide Context.Valid, SlicedSoFar, Wrap;
    StartsAtCut(run, code, base, functions, i);
    if i + 1 < |functions| {
      StartsAtCut(run, code, base, functions, i + 1);
    }
  }

  lemma DecodedKeepsWord(word: bv32, vram: bv32)
    ensures DecodeInstruction(word, vram).rawWord == word && DecodeInstruction(word, vram).vram == vram
  {
    hide DecodeSpecial, DecodeMajor, DecodeRegimm, DecodeCop1, DecodeImmediate, MajorOp, RsField, RtField, RdField;
    hide SaField, Funct, ToRegister;
    forall base: Instruction
      ensures DecodeCop1(base, word).rawWord == base.rawWord && DecodeCop1(base, word).vram == base.vram
      ensures DecodeImmediate(base, word).rawWord == base.rawWord && DecodeImmediate(base, word).vram == base.vram
    {
      Cop1KeepsWord(base, word);
      ImmediateKeepsWord(base, word);
    }
  }

  lemma Cop1KeepsWord(base: Instruction, word: bv32)
    ensures DecodeCop1(base, word).rawWord == base.rawWord && DecodeCop1(base, word).vram == base.vram
  {
    hide DecodeCop1Float, DecodeCop1Move, DecodeBc1, RsField, RtField, RdField, SaField, Funct, ToRegister, ToFpRegister;
  }

  lemma ImmediateKeepsWord(base: Instruction, word: bv32)
    ensures DecodeImmediate(base, word).rawWord == base.rawWord && DecodeImmediate(base, word).vram == base.vram
  {
    hide DecodeMajor, MajorOp, RsField, RtField, ToRegister, ToFpRegister;
  }

  function RawBytes(instructions: seq<Instruction>): seq<bv8> {
    if instructions == [] then []
    else RawBytes(instructions[..|instructions| - 1]) + Bytes(instructions[|instructions| - 1].rawWord)
  }

  /** The raw words are the buffer itself. */
  lemma {:induction false} RawWordsAreTheBuffer(code: seq<bv8>, base: Vram, n: nat)
    requires n <= WordCount(code)
    ensures RawBytes(Code(code, base, n)) == code[..4 * n]
  {
    hide InstructionAt, Bytes;
    if n > 0 {
      RawWordsAreTheBuffer(code, base, n - 1);
      var all := Code(code, base, n);
      assert all[..n - 1] == Code(code, base, n - 1);
      NextWord(code, base, n - 1);
    }
  }

  lemma NextWord(code: seq<bv8>, base: Vram, k: nat)
    requires k < WordCount(code)
    ensures code[..4 * (k + 1)] == code[..4 * k] + Bytes(InstructionAt(code, base, k).rawWord)
  {
    hide DecodeInstruction, Bytes, BigEndian, Pc, ToBits;
    DecodedKeepsWord(WordAt(code, k), ToBits(Pc(base, k)));
    var o := 4 * k;
    BytesOfWord(code[o], code[o + 1], code[o + 2], code[o + 3]);
    assert code[..o + 4] == code[..o] + [code[o], code[o + 1], code[o + 2], code[o + 3]];
  }

  /** On a buffer of whole words, the raw words of the functions concatenate to it. */
  lemma FunctionsHoldTheBuffer(run: Run, code: seq<bv8>, base: Vram, functions: seq<DisassembledFunction>)
    requires run.known.Valid() && Sliced(run, code, base, functions)
    ensures RawBytes(AllInstructions(functions)) == code[..4 * WordCount(code)]
    ensures |code| % 4 == 0 ==> RawBytes(AllInstructions(functions)) == code
  {
    hide Context.Valid, Sliced, RawBytes, AllInstructions, Code;
    FunctionsTile(run, code, base, functions);
    RawWordsAreTheBuffer(code, base, WordCount(code));
  }

  /** The function that holds word k. */
  lemma {:induction false} Holder(run: Run, code: seq<bv8>, base: Vram, functions: seq<DisassembledFunction>, k: nat, n: nat)
    returns (i: nat)
    requires run.known.Valid() && SlicedSoFar(run, code, base, functions) && n <= |functions| && 4 * k + 4 <= run.cuts[n]
    ensures i < n && run.cuts[i] % 4 == 0 && run.cuts[i] <= 4 * k && 4 * k + 4 <= run.cuts[i + 1]
  {
    hide Context.Valid, Pc, Wrap, Ends, IsBoundary, Describes;
    SliceAt(run, code, base, functions, n - 1);
    if run.cuts[n - 1] <= 4 * k {
      i := n - 1;
    } else {
      i := Holder(run, code, base, functions, k, n - 1);
    }
  }

  /** Every known entrypoint in the buffer, every call target in memory among them, starts a function, unless
      it is the delay slot of the return that ends one. */
  lemma EntriesStartFunctions(run: Run, code: seq<bv8>, base: Vram, functions: seq<DisassembledFunction>, k: nat)
    returns (i: nat)
    requires run.known.Valid() && Sliced(run, code, base, functions)
    requires k < WordCount(code) && run.known.IsEntry(Pc(base, k))
    ensures i < |functions|
    ensures
      || (functions[i].vramStart == Pc(base, k) && run.cuts[i] == 4 * k)
      || (k > 0 && run.cuts[i] < 4 * k && 4 * k + 4 <= run.cuts[i + 1] && IsReturnAt(code, base, k - 1))
  {
    hide Context.Valid, Context.IsEntry, Ends, Describes, IsReturnAt, Pc, Wrap;
    i := Holder(run, code, base, functions, k, |functions|);
    SliceAt(run, code, base, functions, i);
    var start := run.cuts[i];
    SliceFacts(run, code, base, start, run.cuts[i + 1], functions[i]);
    if start < 4 * k {
      InteriorOfSlice(run, code, base, start, run.cuts[i + 1], functions[i], k);
    }
  }

  lemma InteriorOfSlice(run: Run, code: seq<bv8>, base: Vram, start: nat, stop: nat, f: DisassembledFunction, k: nat)
    requires run.known.Valid() && SliceOf(run, code, base, start, stop, f)
    requires start < 4 * k && 4 * k + 4 <= stop && run.known.IsEntry(Pc(base, k))
    ensures IsReturnAt(code, base, k - 1)
  {
    hide Context.Valid, Context.IsEntry, Ends, Describes, IsReturnAt;
    var ending :| Ends(run.known, code[start..], Wrap(base + start), stop - start, ending);
    InteriorOfBoundary(run.known, code, base, start / 4, stop - start, ending, k);
  }

  lemma InteriorOfBoundary(c: Context, code: seq<bv8>, base: Vram, s: nat, end: nat, ending: Ending, k: nat)
    requires c.Valid() && 4 * s <= |code| && Ends(c, code[4 * s..], Pc(base, s), end, ending)
    requires s < k < WordCount(code) && 4 * k + 4 <= 4 * s + end && c.IsEntry(Pc(base, k))
    ensures IsReturnAt(code, base, k - 1)
  {
    hide Context.Valid, Context.IsEntry, Ends, InstructionAt, Pc;
    PcOffset(base, s, k - s);
    InteriorEntryIsDelaySlot(c, code[4 * s..], Pc(base, s), end, ending, k - s);
    SuffixWords(code, base, s, k - s - 1);
  }

  // ----- Where the functions of a buffer end -----

  /** Word j is a branch, or a j inside the buffer, and its target lies past word k. */
  predicate LeadsPast(code: seq<bv8>, base: Vram, j: nat, k: nat)
    requires j < WordCount(code)
  {
    var i := InstructionAt(code, base, j);
    if i.IsBranch() then BranchAddress(i) > base + 4 * k
    else i.opcode.J? && base + 4 * k < JumpAddress(i) < base + |code|
  }

  /** Word k is a return, and no word from s up to it leads past it. */
  ghost predicate Closes(code: seq<bv8>, base: Vram, s: nat, k: nat)
    requires k < WordCount(code)
  {
    IsReturnAt(code, base, k) && forall j :: s <= j <= k ==> !LeadsPast(code, base, j, k)
  }

  /** Bytes 4 * s up to end hold no closing return, and end at an entrypoint or with the buffer. */
  ghost predicate EndsOpen(c: Context, code: seq<bv8>, base: Vram, s: nat, end: nat)
    requires c.Valid()
  {
    && 4 * s < end <= |code|
    && (forall k :: s <= k < end / 4 ==> !Closes(code, base, s, k))
    && (end == |code| || (end % 4 == 0 && c.IsEntry(Pc(base, end / 4))))
  }

  /** The first closing return from word s on is word k, and what follows its delay slot up to end is all the
      padding there is. */
  ghost predicate EndsClosed(c: Context, code: seq<bv8>, base: Vram, s: nat, end: nat, k: nat) {
    && s <= k < end / 4 && end <= |code|
    && Closes(code, base, s, k) && (forall j :: s <= j < k ==> !Closes(code, base, s, j))
    && if k + 2 > WordCount(code) then end == |code|
       else end % 4 == 0 && PaddedUpTo(c, code, base, k + 2, end / 4)
  }

  lemma PastInSuffix(code: seq<bv8>, base: Vram, s: nat, j: nat, k: nat)
    requires 4 * s <= |code| && j <= k < WordCount(code[4 * s..]) && base + |code| <= 0x1_0000_0000
    ensures JumpsPast(code[4 * s..], Pc(base, s), j, Pc(Pc(base, s), k)) <==> LeadsPast(code, base, s + j, s + k)
  {
    hide InstructionAt;
    SuffixWords(code, base, s, j);
    PcOffset(base, s, j);
    PcOffset(base, s, k);
    OrderedPcs(base, s + j, s + k);
    OrderedPcs(base, s, s + k);
  }

  lemma ClosesInSuffix(code: seq<bv8>, base: Vram, s: nat, k: nat)
    requires 4 * s <= |code| && k < WordCount(code[4 * s..]) && base + |code| <= 0x1_0000_0000
    ensures FinalReturn(code[4 * s..], Pc(base, s), k) <==> Closes(code, base, s, s + k)
  {
    hide InstructionAt, JumpsPast, LeadsPast, Pc;
    SuffixWords(code, base, s, k);
    var suffix, start := code[4 * s..], Pc(base, s);
    forall j | 0 <= j <= k ensures JumpsPast(suffix, start, j, Pc(start, k)) <==> LeadsPast(code, base, s + j, s + k) {
      PastInSuffix(code, base, s, j, k);
    }
    if FinalReturn(suffix, start, k) {
      var last := s + k;
      forall j | s <= j <= last ensures !LeadsPast(code, base, j, last) {
        assert !JumpsPast(suffix, start, j - s, Pc(start, k));
      }
    }
  }

  lemma NoneClosesInSuffix(c: Context, code: seq<bv8>, base: Vram, s: nat, n: nat)
    requires c.Valid() && 4 * s <= |code| && base + |code| <= 0x1_0000_0000
    requires n <= WordCount(code[4 * s..]) && RunsOn(c, code[4 * s..], Pc(base, s), n)
    ensures forall k :: s <= k < s + n ==> !Closes(code, base, s, k)
  {
    hide Context.Valid, NextEntry, FinalReturn, Closes, Pc;
    forall k | s <= k < s + n ensures !Closes(code, base, s, k) {
      ClosesInSuffix(code, base, s, k - s);
      assert !FinalReturn(code[4 * s..], Pc(base, s), k - s);
    }
  }

  lemma PaddingInSuffix(c: Context, code: seq<bv8>, base: Vram, s: nat, first: nat, last: nat)
    requires 4 * s <= |code| && PaddedUpTo(c, code[4 * s..], Pc(base, s), first, last)
    ensures PaddedUpTo(c, code, base, s + first, s + last)
  {
    hide Context.IsMarked, WordAt, Pc, InstructionAt;
    var suffix, start := code[4 * s..], Pc(base, s);
    forall k: nat | k < WordCount(suffix)
      ensures IsPadding(c, suffix, start, k) <==> IsPadding(c, code, base, s + k)
    {
      SuffixWords(code, base, s, k);
      PcOffset(base, s, k);
    }
    hide IsPadding;
    forall k | s + first <= k < s + last ensures IsPadding(c, code, base, k) {
      assert IsPadding(c, suffix, start, k - s);
    }
  }

  lemma BoundaryEnds(c: Context, code: seq<bv8>, base: Vram, s: nat, end: nat, ending: Ending)
    requires c.Valid() && 4 * s + 4 <= |code| && base + |code| <= 0x1_0000_0000
    requires Ends(c, code[4 * s..], Pc(base, s), end, ending)
    ensures if ending.AtReturn? then EndsClosed(c, code, base, s, 4 * s + end, s + ending.k)
            else EndsOpen(c, code, base, s, 4 * s + end)
  {
    hide Context.Valid, Context.IsEntry, RunsOn, FinalReturn, Closes, Pc, PaddedUpTo, IsPadding;
    var suffix, start := code[4 * s..], Pc(base, s);
    match ending
    case AtEntry(k) =>
      NoneClosesInSuffix(c, code, base, s, k);
      PcOffset(base, s, k);
    case AtReturn(k) =>
      NoneClosesInSuffix(c, code, base, s, k);
      ClosesInSuffix(code, base, s, k);
      if k + 2 <= WordCount(suffix) {
        PaddingInSuffix(c, code, base, s, k + 2, end / 4);
        PaddingAfter(c, suffix, start, k + 2, end / 4);
      }
    case AtEnd =>
      NoneClosesInSuffix(c, code, base, s, WordCount(suffix));
  }

  /** In a buffer that does not wrap around, each function ends behind the first of its returns that none of its
      branches leads past, with its delay slot and the padding after it; a function without such a return runs
      up to an entrypoint or to the end of the buffer. */
  lemma HowFunctionsEnd(run: Run, code: seq<bv8>, base: Vram, functions: seq<DisassembledFunction>, i: nat)
    requires run.known.Valid() && Sliced(run, code, base, functions) && i < |functions|
    requires base + |code| <= 0x1_0000_0000
    ensures var s, end := run.cuts[i] / 4, run.cuts[i + 1];
      EndsOpen(run.known, code, base, s, end) || exists k :: EndsClosed(run.known, code, base, s, end, k)
  {
    hide Context.Valid, Ends, EndsOpen, EndsClosed, Describes, Pc;
    SliceAt(run, code, base, functions, i);
    var start, stop := run.cuts[i], run.cuts[i + 1];
    SliceFacts(run, code, base, start, stop, functions[i]);
    BoundaryOfSlice(run, code, base, start, stop, functions[i]);
  }

  lemma BoundaryOfSlice(run: Run, code: seq<bv8>, base: Vram, start: nat, stop: nat, f: DisassembledFunction)
    requires run.known.Valid() && SliceOf(run, code, base, start, stop, f) && base + |code| <= 0x1_0000_0000
    ensures EndsOpen(run.known, code, base, start / 4, stop)
         || exists k :: EndsClosed(run.known, code, base, start / 4, stop, k)
  {
    hide Context.Valid, Ends, EndsOpen, EndsClosed, Describes;
    var ending :| Ends(run.known, code[start..], Wrap(base + start), stop - start, ending);
    BoundaryEnds(run.known, code, base, start / 4, stop - start, ending);
  }

  lemma CalledIsEntry(c: Context, labels: set<Vram>, run: Run, code: seq<bv8>, base: Vram, j: nat, k: nat)
    requires c.Valid() && run.known.Valid() && Scanned(c, labels, code, base, run.known, run.outer)
    requires j < WordCount(code) && Calls(code, base, j, Pc(base, k))
    ensures run.known.IsEntry(Pc(base, k))
  {
    hide Context.Valid, Calls, Pc;
    assert CalledFrom(code, base, WordCount(code), Pc(base, k));
  }

  /** The target of every branch, and of every j that stays in the buffer, carries its label if it is a word
      of the buffer. */
  lemma TargetsAreLabelled(c: Context, labels: set<Vram>, run: Run, code: seq<bv8>, base: Vram,
                           functions: seq<DisassembledFunction>, j: nat, k: nat)
    returns (i: nat)
    requires c.Valid() && run.known.Valid() && Scanned(c, labels, code, base, run.known, run.outer)
    requires Sliced(run, code, base, functions)
    requires j < WordCount(code) && k < WordCount(code) && Labels(code, base, j, Pc(base, k))
    ensures i < |functions| && run.cuts[i] <= 4 * k && 4 * k + 4 <= run.cuts[i + 1]
    ensures Pc(base, k) in functions[i].labels
  {
    hide Context.Valid, Pc, Labels, SliceOf, CalledFrom;
    assert LabelledFrom(code, base, WordCount(code), Pc(base, k));
    i := Holder(run, code, base, functions, k, |functions|);
    SliceAt(run, code, base, functions, i);
    LabelOfSlice(run, code, base, run.cuts[i], run.cuts[i + 1], functions[i], k);
  }

  lemma LabelOfSlice(run: Run, code: seq<bv8>, base: Vram, start: nat, stop: nat, f: DisassembledFunction, k: nat)
    requires run.known.Valid() && SliceOf(run, code, base, start, stop, f)
    requires start <= 4 * k && 4 * k + 4 <= stop && Pc(base, k) in run.outer
    ensures Pc(base, k) in f.labels
  {
    hide Context.Valid, NameOf, Code, TargetedFrom, HoldsReturn, IsBoundary, Wrap;
    var s := start / 4;
    assert Wrap(base + start) == Pc(base, s);
    PcOffset(base, s, k - s);
    assert Pc(Pc(base, s), k - s) in f.labels;
  }
}
