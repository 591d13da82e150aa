/** The symbol registry of core/symbol_registry.cc: validation, indices, and the names that stand for
    addresses. */
module Symbols {
  import opened Strings
  import opened Wrappers

  type Vram = x: int | 0 <= x < 0x1_0000_0000

  datatype SymbolType = Unspecified | Func | LabelSymbol | Data

  datatype Entry = Entry(address: Vram, name: string, kind: SymbolType, size: Vram)

  // ----- Validation -----

  datatype RegistryError =
    | EmptyName(at: nat) | UnspecifiedType(at: nat) | DuplicateAddress(at: nat) | DuplicateName(at: nat)

  /** Entry i by itself, and against the entries before it. */
  ghost predicate EntryOk(entries: seq<Entry>, i: nat)
    requires i < |entries|
  {
    && entries[i].name != "" && !entries[i].kind.Unspecified?
    && (forall j :: 0 <= j < i ==> entries[j].address != entries[i].address)
    && forall j :: 0 <= j < i ==> entries[j].name != entries[i].name
  }

  ghost predicate Validated(entries: seq<Entry>) {
    forall i :: 0 <= i < |entries| ==> EntryOk(entries, i)
  }

  /** The first thing wrong with entry i, in the order of the checks. */
  ghost predicate Blames(entries: seq<Entry>, e: RegistryError) {
    e.at < |entries| &&
    var x := entries[e.at];
    match e
    case EmptyName(_) => x.name == ""
    case UnspecifiedType(_) => x.name != "" && x.kind.Unspecified?
    case DuplicateAddress(i) =>
      x.name != "" && !x.kind.Unspecified? && exists j :: 0 <= j < i && entries[j].address == x.address
    case DuplicateName(i) =>
      && x.name != "" && !x.kind.Unspecified?
      && (forall j :: 0 <= j < i ==> entries[j].address != x.address)
      && exists j :: 0 <= j < i && entries[j].name == x.name
  }

  /** Accepts exactly the registries without an offending entry; otherwise names the first one. */
  method ValidateSymbolRegistry(entries: seq<Entry>) returns (error: Option<RegistryError>)
    ensures error.None? <==> Validated(entries)
    ensures error.Some? ==>
      Blames(entries, error.value) && forall i :: 0 <= i < error.value.at ==> EntryOk(entries, i)
  {
    var seenAddresses: set<Vram> := {};
    var seenNames: set<string> := {};
    for i := 0 to |entries|
      invariant forall j :: 0 <= j < i ==> EntryOk(entries, j)
      invariant forall a :: a in seenAddresses <==> exists j :: 0 <= j < i && entries[j].address == a
      invariant forall n :: n in seenNames <==> exists j :: 0 <= j < i && entries[j].name == n
    {
      var x := entries[i];
      if x.name == "" {
        assert !EntryOk(entries, i);
        return Some(EmptyName(i));
      }
      if x.kind.Unspecified? {
        assert !EntryOk(entries, i);
        return Some(UnspecifiedType(i));
      }
      if x.address in seenAddresses {
        assert !EntryOk(entries, i);
        return Some(DuplicateAddress(i));
      }
      seenAddresses := seenAddresses + {x.address};
      if x.name in seenNames {
        assert !EntryOk(entries, i);
        return Some(DuplicateName(i));
      }
      seenNames := seenNames + {x.name};
    }
    error := None;
  }

  lemma ValidatedIsInjective(entries: seq<Entry>, i: nat, j: nat)
    requires Validated(entries) && i < |entries| && j < |entries|
    requires entries[i].address == entries[j].address || entries[i].name == entries[j].name
    ensures i == j
  {
    assert EntryOk(entries, i) && EntryOk(entries, j);
  }

  // ----- Hexadecimal -----

  function UpperHexDigit(n: nat): char
    requires n < 16
  {
    if n < 10 then '0' + n as char else 'A' + (n - 10) as char
  }

  predicate IsHexDigit(c: char) { '0' <= c <= '9' || 'a' <= c <= 'f' || 'A' <= c <= 'F' }

  function HexDigitValue(c: char): (r: nat)
    requires IsHexDigit(c)
    ensures r < 16
  {
    if '0' <= c <= '9' then c as int - '0' as int
    else if 'a' <= c <= 'f' then c as int - 'a' as int + 10
    else c as int - 'A' as int + 10
  }

  /** Upper-case digits, as many as asked for. */
  function Hex(n: nat, digits: nat): (r: string)
    ensures |r| == digits
  {
    if digits == 0 then "" else Hex(n / 16, digits - 1) + [UpperHexDigit(n % 16)]
  }

  predicate AllHex(s: string) { forall i :: 0 <= i < |s| ==> IsHexDigit(s[i]) }

  function HexValue(s: string): nat
    requires AllHex(s)
  {
    if s == "" then 0 else 16 * HexValue(s[..|s| - 1]) + HexDigitValue(s[|s| - 1])
  }

  function Pow16(k: nat): nat { if k == 0 then 1 else 16 * Pow16(k - 1) }

  lemma UpperDigitValue(n: nat)
    requires n < 16
    ensures IsHexDigit(UpperHexDigit(n)) && HexDigitValue(UpperHexDigit(n)) == n
    ensures UpperHexDigit(n) != '_'
  {
  }

  /** Reading written digits gives the number back. */
  lemma {:induction false} HexRoundTrip(n: nat, digits: nat)
    requires n < Pow16(digits)
    ensures AllHex(Hex(n, digits)) && HexValue(Hex(n, digits)) == n
    ensures forall i :: 0 <= i < digits ==> Hex(n, digits)[i] != '_'
  {
    hide IsHexDigit, HexDigitValue, UpperHexDigit;
    if digits > 0 {
      HexRoundTrip(n / 16, digits - 1);
      UpperDigitValue(n % 16);
      var front, s := Hex(n / 16, digits - 1), Hex(n, digits);
      assert s[..|s| - 1] == front;
      assert forall i :: 0 <= i < digits - 1 ==> s[i] == front[i];
    }
  }

  lemma HexEight(a: Vram)
    ensures AllHex(Hex(a, 8)) && HexValue(Hex(a, 8)) == a
    ensures forall i :: 0 <= i < 8 ==> Hex(a, 8)[i] != '_'
  {
    assert Pow16(8) == 0x1_0000_0000 by {
      assert Pow16(2) == 256;
      assert Pow16(4) == 65536;
      assert Pow16(6) == 16777216;
    }
    HexRoundTrip(a, 8);
  }

  // ----- The index -----

  /** index holds, for every key, the last entry that has it. */
  ghost predicate IndexesAddresses(entries: seq<Entry>, index: map<int, nat>) {
    && (forall a :: a in index ==> index[a] < |entries| && entries[index[a]].address == a)
    && forall i :: 0 <= i < |entries| ==> entries[i].address in index && i <= index[entries[i].address]
  }

  ghost predicate IndexesNames(entries: seq<Entry>, index: map<string, nat>) {
    && (forall n :: n in index ==> index[n] < |entries| && entries[index[n]].name == n)
    && forall i :: 0 <= i < |entries| ==> entries[i].name in index && i <= index[entries[i].name]
  }

  lemma AddressIndexNext(entries: seq<Entry>, e: Entry, index: map<int, nat>)
    requires IndexesAddresses(entries, index)
    ensures IndexesAddresses(entries + [e], index[e.address := |entries|])
  {
  }

  lemma NameIndexNext(entries: seq<Entry>, e: Entry, index: map<string, nat>)
    requires IndexesNames(entries, index)
    ensures IndexesNames(entries + [e], index[e.name := |entries|])
  {
  }

  /** order lists each of the first n positions once. */
  ghost predicate Lists(order: seq<nat>, n: nat) {
    |order| == n && forall k: nat :: k in order <==> k < n
  }

  predicate AtOrBelow(entries: seq<Entry>, i: nat, j: nat)
    requires i < |entries| && j < |entries|
  {
    entries[i].address <= entries[j].address
  }

  ghost predicate InRange(entries: seq<Entry>, order: seq<nat>) {
    forall i :: 0 <= i < |order| ==> order[i] < |entries|
  }

  ghost predicate SortedByAddress(entries: seq<Entry>, order: seq<nat>) {
    InRange(entries, order) &&
    forall i, j :: 0 <= i < j < |order| ==> AtOrBelow(entries, order[i], order[j])
  }

  /** Puts a position where its address belongs. */
  method InsertByAddress(entries: seq<Entry>, order: seq<nat>, x: nat) returns (r: seq<nat>)
    requires SortedByAddress(entries, order) && x < |entries|
    ensures SortedByAddress(entries, r)
    ensures |r| == |order| + 1 && forall k: nat :: k in r <==> k in order || k == x
  {
    var k := |order|;
    while k > 0 && !AtOrBelow(entries, order[k - 1], x)
      invariant 0 <= k <= |order|
      invariant forall i :: k <= i < |order| ==> AtOrBelow(entries, x, order[i])
    {
      k := k - 1;
    }
    forall i | 0 <= i < k ensures AtOrBelow(entries, order[i], x) {
      if i < k - 1 {
        assert AtOrBelow(entries, order[i], order[k - 1]);
      }
    }
    hide AtOrBelow;
    r := order[..k] + [x] + order[k..];
    assert order == order[..k] + order[k..];
    SortedInsert(entries, order, k, x);
  }

  lemma SortedInsert(entries: seq<Entry>, order: seq<nat>, k: nat, x: nat)
    requires SortedByAddress(entries, order) && x < |entries| && k <= |order|
    requires forall i :: 0 <= i < k ==> AtOrBelow(entries, order[i], x)
    requires forall i :: k <= i < |order| ==> AtOrBelow(entries, x, order[i])
    ensures SortedByAddress(entries, order[..k] + [x] + order[k..])
  {
    hide AtOrBelow;
  }

  /** The state of an index: what its queries read. */
  datatype SymbolTable = SymbolTable(
    registry: seq<Entry>, byAddress: map<int, nat>, byName: map<string, nat>, sortedEntries: seq<nat>)
  {
    ghost predicate Valid() {
      && Validated(registry)
      && IndexesAddresses(registry, byAddress) && IndexesNames(registry, byName)
      && SortedByAddress(registry, sortedEntries) && Lists(sortedEntries, |registry|)
    }

    /** What a linear scan for the address finds. */
    function FindByAddress(address: Vram): (r: Option<Entry>)
      requires Valid()
      ensures r.Some? ==> r.value in registry && r.value.address == address
      ensures r.None? ==> forall e :: e in registry ==> e.address != address
    {
      if address in byAddress then Some(registry[byAddress[address]]) else None
    }

    /** What a linear scan for the name finds. */
    function FindByName(name: string): (r: Option<Entry>)
      requires Valid()
      ensures r.Some? ==> r.value in registry && r.value.name == name
      ensures r.None? ==> forall e :: e in registry ==> e.name != name
    {
      if name in byName then Some(registry[byName[name]]) else None
    }

    predicate HasAddress(address: Vram) { address in byAddress }

    /** The registered name of an address, else a synthesized one. */
    function LookupOrSynthesizeName(address: Vram, fallback: SymbolType): string
      requires Valid()
    {
      var e := FindByAddress(address);
      if e.Some? then e.value.name else SynthesizedName(address, fallback)
    }
  }

  class SymbolIndex {
    var registry: seq<Entry>
    var byAddress: map<int, nat>
    var byName: map<string, nat>
    var sortedEntries: seq<nat>

    function Table(): SymbolTable
      reads this
    {
      SymbolTable(registry, byAddress, byName, sortedEntries)
    }

    constructor (entries: seq<Entry>)
      requires Validated(entries)
      ensures Table().Valid() && registry == entries
    {
      registry := entries;
      byAddress, byName, sortedEntries := map[], map[], [];
      new;
      hide Validated, IndexesAddresses, IndexesNames, SortedByAddress, Lists;
      RebuildIndex();
    }

    method RebuildIndex()
      modifies this`byAddress, this`byName, this`sortedEntries
      ensures IndexesAddresses(registry, byAddress) && IndexesNames(registry, byName)
      ensures SortedByAddress(registry, sortedEntries) && Lists(sortedEntries, |registry|)
    {
      byAddress, byName, sortedEntries := map[], map[], [];
      NothingIndexed();
      hide IndexesAddresses, IndexesNames;
      for i := 0 to |registry|
        invariant IndexesAddresses(registry[..i], byAddress) && IndexesNames(registry[..i], byName)
        invariant SortedByAddress(registry, sortedEntries) && Lists(sortedEntries, i)
      {
        assert registry[..i + 1] == registry[..i] + [registry[i]];
        AddressIndexNext(registry[..i], registry[i], byAddress);
        NameIndexNext(registry[..i], registry[i], byName);
        byAddress := byAddress[registry[i].address := i];
        byName := byName[registry[i].name := i];
        sortedEntries := InsertByAddress(registry, sortedEntries, i);
      }
      assert registry[..|registry|] == registry;
    }
  }

  lemma NothingIndexed()
    ensures IndexesAddresses([], map[]) && IndexesNames([], map[]) && Lists([], 0)
  {
  }

  /** In a validated registry an address and a name each determine the entry. */
  lemma FoundIsTheEntry(index: SymbolTable, e: Entry)
    requires index.Valid() && e in index.registry
    ensures index.FindByAddress(e.address) == Some(e) && index.FindByName(e.name) == Some(e)
    ensures e.name != ""
  {
    var i :| 0 <= i < |index.registry| && index.registry[i] == e;
    assert EntryOk(index.registry, i);
    ValidatedIsInjective(index.registry, i, index.byAddress[e.address]);
    ValidatedIsInjective(index.registry, i, index.byName[e.name]);
  }

  function SynthesizedName(address: Vram, kind: SymbolType): string {
    (if kind.Func? then "func_" else if kind.LabelSymbol? then ".L" else "D_") + Hex(address, 8)
  }

  // ----- Resolving names -----

  predicate IsHexDigits(s: string, expectedLength: nat) {
    (expectedLength > 0 ==> |s| == expectedLength) && 0 < |s| <= 8 && AllHex(s)
  }

  /** Position of the last underscore. */
  function LastUnderscore(s: string): (r: Option<nat>)
    ensures r.Some? ==> r.value < |s| && s[r.value] == '_'
  {
    if s == "" then None
    else if s[|s| - 1] == '_' then Some(|s| - 1)
    else LastUnderscore(s[..|s| - 1])
  }

  /** The address that a text spells out by itself. */
  function SpelledAddress(s: string): Option<nat> {
    var hex := if |s| >= 2 then s[2..] else "";
    if (StartsWith(s, "0x") || StartsWith(s, "0X")) && IsHexDigits(hex, 0) then Some(HexValue(hex))
    else if StartsWith(s, ".L") && |s| == 10 && IsHexDigits(hex, 8) then Some(HexValue(hex))
    else
      var u := LastUnderscore(s);
      var tail := if u.Some? then s[u.value + 1..] else "";
      if IsHexDigits(tail, 8) then Some(HexValue(tail))
      else if IsHexDigits(s, 8) && (exists i :: 0 <= i < |s| && '0' <= s[i] <= '9') then Some(HexValue(s))
      else None
  }

  /** A registered name means its entry; any other text what it spells. */
  function ResolveSymbolOrSynthesizedAddress(name: string, index: Option<SymbolTable>): Option<nat>
    requires index.Some? ==> index.value.Valid()
  {
    if name == "" then None
    else
      var e := if index.Some? then index.value.FindByName(name) else None;
      if e.Some? then Some(e.value.address) else SpelledAddress(name)
  }

  lemma {:induction false} UnderscoreBefore(s: string, k: nat)
    requires k < |s| && s[k] == '_' && forall i :: k < i < |s| ==> s[i] != '_'
    ensures LastUnderscore(s) == Some(k)
    decreases |s|
  {
    if k < |s| - 1 {
      UnderscoreBefore(s[..|s| - 1], k);
    }
  }

  /** Every synthesized name spells the address it was made from. */
  lemma SynthesizedSpells(address: Vram, kind: SymbolType)
    ensures SpelledAddress(SynthesizedName(address, kind)) == Some(address)
    ensures SynthesizedName(address, kind) != ""
  {
    var hex, s := Hex(address, 8), SynthesizedName(address, kind);
    HexEight(address);
    hide Hex, AllHex, HexValue;
    if kind.LabelSymbol? {
      assert s[0] == '.' && s[2..] == hex;
      assert !StartsWith(s, "0x") && !StartsWith(s, "0X");
    } else {
      var k := if kind.Func? then 4 else 1;
      assert s[k] == '_' && s[k + 1..] == hex && |s| == k + 9;
      assert forall i :: k < i < |s| ==> s[i] == hex[i - k - 1];
      UnderscoreBefore(s, k);
      assert s[0] == if kind.Func? then 'f' else 'D';
      assert !StartsWith(s, "0x") && !StartsWith(s, "0X") && !StartsWith(s, ".L");
    }
  }

  /** Resolving the looked-up or synthesized name returns the address, for every address and fallback,
      exactly when the address is registered or no entry has taken its synthesized name. */
  lemma NamingRoundTrip(index: SymbolTable, address: Vram, fallback: SymbolType)
    requires index.Valid()
    ensures
      ResolveSymbolOrSynthesizedAddress(index.LookupOrSynthesizeName(address, fallback), Some(index)) == Some(address)
      <==>
      (index.HasAddress(address) || forall e :: e in index.registry ==> e.name != SynthesizedName(address, fallback))
  {
    var name := index.LookupOrSynthesizeName(address, fallback);
    if index.HasAddress(address) {
      FoundIsTheEntry(index, index.FindByAddress(address).value);
    } else {
      SynthesizedSpells(address, fallback);
      hide SpelledAddress, SynthesizedName;
      var e := index.FindByName(name);
      if e.Some? {
        assert e.value.address != address;
      }
    }
  }

  /** Without a registry every synthesized name resolves. */
  lemma NamingWithoutRegistry(address: Vram, kind: SymbolType)
    ensures ResolveSymbolOrSynthesizedAddress(SynthesizedName(address, kind), None) == Some(address)
  {
    SynthesizedSpells(address, kind);
    hide SpelledAddress, SynthesizedName;
  }
}
