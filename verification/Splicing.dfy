/** Splicing functions of several compilations into one assembly file: core/assembly_aligner.cc. */
module Splicing {
  import opened FunctionLabels
  import opened LabelRenaming
  import opened Strings
  import opened Wrappers

  // ----- Directives -----

  function TrimIndent(s: string): string {
    if s != "" && (s[0] == ' ' || s[0] == '\t') then TrimIndent(s[1..]) else s
  }

  predicate IsAsciiSpace(c: char) {
    c == ' ' || c == '\t' || c == '\n' || c == '\r' || c as int == 11 || c as int == 12
  }

  function TrimLeft(s: string): string { if s != "" && IsAsciiSpace(s[0]) then TrimLeft(s[1..]) else s }

  function TrimRight(s: string): string {
    if s != "" && IsAsciiSpace(s[|s| - 1]) then TrimRight(s[..|s| - 1]) else s
  }

  function Trim(s: string): string { TrimRight(TrimLeft(s)) }

  predicate Separates(c: char) { c == ' ' || c == '\t' || c == '\r' || c == '\n' }

  /** The fields of a line, after what is read of the current one. */
  function Fields(s: string, current: string): (r: seq<string>)
    ensures forall i :: 0 <= i < |r| ==> r[i] != ""
  {
    var done := if current == "" then [] else [current];
    if s == "" then done
    else if Separates(s[0]) then done + Fields(s[1..], "")
    else Fields(s[1..], current + [s[0]])
  }

  predicate IsDirective(s: string, word: string) { StartsWith(s, word + "\t") || StartsWith(s, word + " ") }

  /** The function that a line opens. */
  function EntName(line: string): Option<string> {
    var l := TrimIndent(line);
    if IsDirective(l, ".ent") && |Fields(l, "")| >= 2 then Some(Fields(l, "")[1]) else None
  }

  /** The comparison is by prefix, so a line that closes a longer name counts too. */
  predicate IsEnd(line: string, name: string) {
    StartsWith(TrimIndent(line), ".end\t" + name) || StartsWith(TrimIndent(line), ".end " + name)
  }

  /** The line closes the name itself: nothing of a longer name follows. */
  predicate IsOwnEnd(line: string, name: string) {
    var l, n := TrimIndent(line), 5 + |name|;
    IsEnd(line, name) && (|l| <= n || Separates(l[n]))
  }

  predicate IsSize(line: string, name: string) {
    IsDirective(TrimIndent(line), ".size") && |TrimIndent(line)| >= 5
    && StartsWith(TrimLeft(TrimIndent(line)[5..]), name)
  }

  /** The line gives the size of the name itself. */
  predicate IsOwnSize(line: string, name: string) {
    IsSize(line, name) &&
    var rest, n := TrimLeft(TrimIndent(line)[5..]), |name|;
    |rest| <= n || rest[n] == ',' || IsAsciiSpace(rest[n])
  }

  // ----- Function spans -----

  datatype AssemblyFunctionSpan = AssemblyFunctionSpan(name: string, start: nat, end: nat)

  predicate InSizeWindow(lines: seq<string>, j: nat, k: nat) { j < k <= j + 5 && k < |lines| }

  /** Line j closes the function; its size line, if one follows closely, belongs to it. */
  ghost predicate ClosesAt(lines: seq<string>, name: string, j: nat, end: nat) {
    if end == j then forall k: nat :: InSizeWindow(lines, j, k) ==> !IsSize(lines[k], name)
    else
      && InSizeWindow(lines, j, end) && IsSize(lines[end], name)
      && forall k :: j < k < end && k < |lines| ==> !IsSize(lines[k], name)
  }

  /** Line j is the first after start that ends the function. */
  ghost predicate FirstEnd(lines: seq<string>, name: string, start: nat, j: nat) {
    start < j < |lines| && IsEnd(lines[j], name) && forall k :: start < k < j ==> !IsEnd(lines[k], name)
  }

  ghost predicate SpanAt(lines: seq<string>, s: AssemblyFunctionSpan) {
    && s.start < s.end < |lines|
    && EntName(lines[s.start]) == Some(s.name)
    && exists j :: FirstEnd(lines, s.name, s.start, j) && ClosesAt(lines, s.name, j, s.end)
  }

  ghost predicate Unclosed(lines: seq<string>, i: nat)
    requires i < |lines|
  {
    EntName(lines[i]).Some? ==> forall j :: i < j < |lines| ==> !IsEnd(lines[j], EntName(lines[i]).value)
  }

  /** Where the text resumes after the first n spans. */
  function Resume(spans: seq<AssemblyFunctionSpan>, n: nat): nat
    requires n <= |spans|
  {
    if n == 0 then 0 else spans[n - 1].end + 1
  }

  predicate Ordered(spans: seq<AssemblyFunctionSpan>) {
    && (forall i :: 0 <= i < |spans| ==> spans[i].start <= spans[i].end)
    && forall i, j :: 0 <= i < j < |spans| ==> spans[i].end < spans[j].start
  }

  ghost predicate Inside(spans: seq<AssemblyFunctionSpan>, i: nat) {
    exists k :: 0 <= k < |spans| && spans[k].start <= i <= spans[k].end
  }

  /** The spans of the first n lines: each opened and closed, in order and apart, and none passed over. */
  ghost predicate Parsed(lines: seq<string>, spans: seq<AssemblyFunctionSpan>, n: nat)
    requires n <= |lines|
  {
    && (forall i :: 0 <= i < |spans| ==> SpanAt(lines, spans[i]) && spans[i].end < n)
    && Ordered(spans)
    && forall i :: 0 <= i < n ==> Inside(spans, i) || Unclosed(lines, i)
  }

  /** A later function of the same name takes the place of an earlier one. */
  ghost predicate LastByName(spans: seq<AssemblyFunctionSpan>, funcs: map<string, AssemblyFunctionSpan>) {
    && (forall n :: n in funcs ==> funcs[n] in spans && funcs[n].name == n)
    && forall i :: 0 <= i < |spans| ==> spans[i].name in funcs && spans[i].start <= funcs[spans[i].name].start
  }

  /** The functions of a file by name. */
  ghost predicate FunctionsOf(lines: seq<string>, funcs: map<string, AssemblyFunctionSpan>) {
    exists spans :: Parsed(lines, spans, |lines|) && LastByName(spans, funcs)
  }

  /** A function closes at the first line that closes its own name exactly when no line for a longer name
      that begins with it comes before. */
  lemma ClosesAtOwnEndExactly(lines: seq<string>, name: string, start: nat, j: nat, own: nat)
    requires FirstEnd(lines, name, start, j)
    requires start < own < |lines| && IsOwnEnd(lines[own], name)
    requires forall k :: start < k < own ==> !IsOwnEnd(lines[k], name)
    ensures j == own <==> forall k :: start < k < own ==> !(IsEnd(lines[k], name) && !IsOwnEnd(lines[k], name))
  {
    hide IsEnd;
  }

  /** A closed function ends at the first size line of its own name, among the five that follow, exactly when
      no size line for a longer name that begins with it comes before. */
  lemma EndsAtOwnSizeExactly(lines: seq<string>, name: string, j: nat, end: nat, own: nat)
    requires ClosesAt(lines, name, j, end) && InSizeWindow(lines, j, own) && IsOwnSize(lines[own], name)
    requires forall k :: j < k < own ==> !IsOwnSize(lines[k], name)
    ensures end == own <==> forall k :: j < k < own ==> !(IsSize(lines[k], name) && !IsOwnSize(lines[k], name))
  {
    assert IsSize(lines[own], name);
    hide IsSize, IsOwnSize;
  }

  /** Line i lies behind the first line of a span: up to the line that closes it, or up to the size line, of
      whatever longer name, that is taken for its own. */
  ghost predicate Swallows(lines: seq<string>, s: AssemblyFunctionSpan, i: nat) {
    exists j: nat :: FirstEnd(lines, s.name, s.start, j) &&
      (s.start < i <= j
       || (j < i <= s.end && InSizeWindow(lines, j, s.end) && IsSize(lines[s.end], s.name)))
  }

  lemma SwallowedIsInside(lines: seq<string>, s: AssemblyFunctionSpan, i: nat)
    requires SpanAt(lines, s)
    ensures Swallows(lines, s, i) <==> s.start < i <= s.end
  {
    hide IsEnd, IsSize, EntName;
    var j :| FirstEnd(lines, s.name, s.start, j) && ClosesAt(lines, s.name, j, s.end);
  }

  /** A function that is closed is passed over exactly when its first line lies inside the span of another. */
  lemma PassedOverExactly(lines: seq<string>, spans: seq<AssemblyFunctionSpan>, i: nat)
    requires Parsed(lines, spans, |lines|) && i < |lines| && !Unclosed(lines, i)
    ensures (forall k :: 0 <= k < |spans| ==> spans[k].start != i) <==>
              exists k :: 0 <= k < |spans| && Swallows(lines, spans[k], i)
  {
    hide Unclosed, SpanAt, Swallows;
    forall k | 0 <= k < |spans| ensures Swallows(lines, spans[k], i) <==> spans[k].start < i <= spans[k].end {
      SwallowedIsInside(lines, spans[k], i);
    }
    if forall k :: 0 <= k < |spans| ==> spans[k].start != i {
      assert Inside(spans, i);
    }
  }

  /** A size line of a longer name can make a span swallow a closed function: every parse of these lines finds
      Foo alone. */
  lemma SizeLineSwallowsFunction(spans: seq<AssemblyFunctionSpan>)
    ensures var lines := [".ent Foo", ".end Foo", ".ent FooBar", ".end FooBar", ".size FooBar"];
      && EntName(lines[2]) == Some("FooBar") && !Unclosed(lines, 2)
      && (Parsed(lines, spans, |lines|) ==> spans == [AssemblyFunctionSpan("Foo", 0, 4)])
  {
    var lines := [".ent Foo", ".end Foo", ".ent FooBar", ".end FooBar", ".size FooBar"];
    DirectivesOfExample();
    hide EntName, IsEnd, IsSize;
    assert lines[0] == ".ent Foo" && lines[1] == ".end Foo" && lines[2] == ".ent FooBar" && lines[3] == ".end FooBar";
    assert IsEnd(lines[1], EntName(lines[0]).value) && IsEnd(lines[3], EntName(lines[2]).value);
    if Parsed(lines, spans, |lines|) {
      assert !Unclosed(lines, 0);
      assert Inside(spans, 0);
      var k :| 0 <= k < |spans| && spans[k].start <= 0 <= spans[k].end;
      FooEndsLate(lines, spans[k]);
      NoOtherSpan(lines, spans, k);
    }
  }

  lemma NoOtherSpan(lines: seq<string>, spans: seq<AssemblyFunctionSpan>, k: nat)
    requires Parsed(lines, spans, |lines|) && k < |spans| && spans[k].start == 0 && spans[k].end + 1 == |lines|
    ensures spans == [spans[k]]
  {
    hide Inside, Unclosed, EntName, FirstEnd, ClosesAt;
    forall x | 0 <= x < |spans| ensures spans[x] == spans[k] && x == k {
      assert SpanAt(lines, spans[x]);
    }
    assert spans[|spans| - 1] == spans[0];
  }

  lemma DirectivesOfExample()
    ensures EntName(".ent Foo") == Some("Foo") && EntName(".ent FooBar") == Some("FooBar")
    ensures IsEnd(".end Foo", "Foo") && IsEnd(".end FooBar", "FooBar")
    ensures !IsSize(".ent FooBar", "Foo") && !IsSize(".end FooBar", "Foo") && IsSize(".size FooBar", "Foo")
  {
    FieldsOfEnt();
    FieldsOfLongerEnt();
    assert ".ent Foo"[..5] == ".ent" + " " && ".ent FooBar"[..5] == ".ent" + " ";
    assert ".end Foo"[..8] == ".end " + "Foo" && ".end FooBar"[..11] == ".end " + "FooBar";
    hide Fields, IsSize;
    SizesOfExample();
  }

  lemma SizesOfExample()
    ensures !IsSize(".ent FooBar", "Foo") && !IsSize(".end FooBar", "Foo") && IsSize(".size FooBar", "Foo")
  {
    assert ".ent FooBar"[1] != 's' && ".end FooBar"[1] != 's';
    assert ".size FooBar"[..6] == ".size" + " ";
    var rest := ".size FooBar"[5..];
    assert rest == " FooBar" && rest[1..] == "FooBar" && TrimLeft("FooBar") == "FooBar";
    assert TrimLeft(rest) == "FooBar" && "FooBar"[..3] == "Foo";
  }

  lemma FooEndsLate(lines: seq<string>, s: AssemblyFunctionSpan)
    requires |lines| == 5 && SpanAt(lines, s) && s.start == 0 && EntName(lines[0]) == Some("Foo")
    requires IsEnd(lines[1], "Foo") && !IsSize(lines[2], "Foo") && !IsSize(lines[3], "Foo") && IsSize(lines[4], "Foo")
    ensures s == AssemblyFunctionSpan("Foo", 0, 4)
  {
    hide EntName, IsEnd, IsSize;
    var j :| FirstEnd(lines, s.name, s.start, j) && ClosesAt(lines, s.name, j, s.end);
    assert j == 1;
    assert InSizeWindow(lines, j, 4);
  }

  /** A line for a longer name can come before. */
  lemma LongerNameClosesFirst()
    ensures var lines := [".ent Foo", ".end FooBar", ".end Foo"];
      EntName(lines[0]) == Some("Foo") && FirstEnd(lines, "Foo", 0, 1) && !IsOwnEnd(lines[1], "Foo") && IsOwnEnd(lines[2], "Foo")
  {
    var lines := [".ent Foo", ".end FooBar", ".end Foo"];
    assert TrimIndent(lines[0]) == lines[0] && TrimIndent(lines[1]) == lines[1] && TrimIndent(lines[2]) == lines[2];
    FieldsOfEnt();
    assert ".end FooBar"[..8] == ".end " + "Foo" && ".end Foo"[..8] == ".end " + "Foo";
    assert ".ent Foo"[..5] == ".ent" + " ";
    assert lines[1][8] == 'B' && !Separates('B');
    hide Fields;
  }

  lemma FieldsOfEnt()
    ensures Fields(".ent Foo", "") == [".ent", "Foo"]
  {
    FieldGrows(".ent Foo", "", ".ent", " Foo");
    FieldEnds(" Foo", ".ent");
    assert " Foo"[1..] == "Foo";
    assert "Foo" == "Foo" + "";
    FieldGrows("Foo", "", "Foo", "");
    assert "" + ".ent" == ".ent" && "" + "Foo" == "Foo";
    assert Fields("", "Foo") == ["Foo"];
  }

  lemma FieldsOfLongerEnt()
    ensures Fields(".ent FooBar", "") == [".ent", "FooBar"]
  {
    FieldGrows(".ent FooBar", "", ".ent", " FooBar");
    FieldEnds(" FooBar", ".ent");
    assert " FooBar"[1..] == "FooBar";
    assert "FooBar" == "FooBar" + "";
    FieldGrows("FooBar", "", "FooBar", "");
    assert "" + ".ent" == ".ent" && "" + "FooBar" == "FooBar";
    assert Fields("", "FooBar") == ["FooBar"];
  }

  lemma {:induction false} FieldGrows(s: string, current: string, word: string, rest: string)
    requires s == word + rest && forall i :: 0 <= i < |word| ==> !Separates(word[i])
    ensures Fields(s, current) == Fields(rest, current + word)
    decreases |word|
  {
    hide Separates;
    if word == "" {
      assert s == rest && current + word == current;
    } else {
      assert s[1..] == word[1..] + rest && s[0] == word[0];
      assert current + [word[0]] + word[1..] == current + word;
      FieldGrows(s[1..], current + [s[0]], word[1..], rest);
    }
  }

  lemma FieldEnds(s: string, current: string)
    requires s != "" && Separates(s[0]) && current != ""
    ensures Fields(s, current) == [current] + Fields(s[1..], "")
  {
  }

  method FindEndLine(lines: seq<string>, name: string, start: nat) returns (j: Option<nat>)
    requires start < |lines|
    ensures j.Some? ==> FirstEnd(lines, name, start, j.value)
    ensures j.None? ==> forall k :: start < k < |lines| ==> !IsEnd(lines[k], name)
  {
    for i := start + 1 to |lines|
      invariant forall k :: start < k < i ==> !IsEnd(lines[k], name)
    {
      if IsEnd(lines[i], name) {
        return Some(i);
      }
    }
    j := None;
  }

  method FindSizeLine(lines: seq<string>, name: string, j: nat) returns (end: nat)
    requires j < |lines|
    ensures ClosesAt(lines, name, j, end) && j <= end < |lines|
  {
    var k := j + 1;
    while k < |lines| && k <= j + 5
      invariant j < k <= |lines|
      invariant forall i :: j < i < k ==> !IsSize(lines[i], name)
    {
      if IsSize(lines[k], name) {
        return k;
      }
      k := k + 1;
    }
    end := j;
  }

  method ParseAssemblyFunctions(lines: seq<string>)
    returns (funcs: map<string, AssemblyFunctionSpan>)
    ensures FunctionsOf(lines, funcs)
  {
    hide EntName, IsEnd, IsSize, ClosesAt, SpanAt, Unclosed;
    funcs := map[];
    ghost var spans: seq<AssemblyFunctionSpan> := [];
    var i := 0;
    while i < |lines|
      invariant 0 <= i <= |lines|
      invariant Parsed(lines, spans, i) && LastByName(spans, funcs)
    {
      var name := EntName(lines[i]);
      var end: Option<nat> := None;
      if name.Some? {
        end := FindEndLine(lines, name.value, i);
      }
      if end.Some? {
        var last := FindSizeLine(lines, name.value, end.value);
        var span := AssemblyFunctionSpan(name.value, i, last);
        SpanFound(lines, span, end.value);
        ParsedNext(lines, spans, i, span);
        LastByNameNext(spans, funcs, span);
        funcs, spans := funcs[name.value := span], spans + [span];
        i := last + 1;
      } else {
        NothingOpened(lines, i);
        i := i + 1;
      }
    }
  }

  lemma SpanFound(lines: seq<string>, s: AssemblyFunctionSpan, j: nat)
    requires s.start < |lines| && EntName(lines[s.start]) == Some(s.name)
    requires FirstEnd(lines, s.name, s.start, j) && ClosesAt(lines, s.name, j, s.end) && j <= s.end < |lines|
    ensures SpanAt(lines, s)
  {
    hide EntName, IsEnd, IsSize, ClosesAt, FirstEnd;
    assert s.start < j by { EndComesAfter(lines, s.name, s.start, j); }
  }

  lemma EndComesAfter(lines: seq<string>, name: string, start: nat, j: nat)
    requires FirstEnd(lines, name, start, j)
    ensures start < j
  {
  }

  lemma NothingOpened(lines: seq<string>, i: nat)
    requires i < |lines|
    requires EntName(lines[i]).Some? ==> forall k :: i < k < |lines| ==> !IsEnd(lines[k], EntName(lines[i]).value)
    ensures Unclosed(lines, i)
  {
    hide EntName, IsEnd;
  }

  lemma ParsedNext(lines: seq<string>, spans: seq<AssemblyFunctionSpan>, i: nat, s: AssemblyFunctionSpan)
    requires i < |lines| && Parsed(lines, spans, i) && SpanAt(lines, s) && s.start == i && i <= s.end < |lines|
    ensures Parsed(lines, spans + [s], s.end + 1)
  {
    hide SpanAt, Unclosed;
    var next := spans + [s];
    forall k | 0 <= k < s.end + 1 ensures Inside(next, k) || Unclosed(lines, k) {
      if k < i && Inside(spans, k) {
        var x :| 0 <= x < |spans| && spans[x].start <= k <= spans[x].end;
        assert next[x] == spans[x];
      } else if k >= i {
        assert next[|spans|] == s;
      }
    }
  }

  lemma LastByNameNext(spans: seq<AssemblyFunctionSpan>, funcs: map<string, AssemblyFunctionSpan>, s: AssemblyFunctionSpan)
    requires LastByName(spans, funcs) && forall i :: 0 <= i < |spans| ==> spans[i].start < s.start
    ensures LastByName(spans + [s], funcs[s.name := s])
  {
  }

  // ----- The functions in file order -----

  /** Puts a span where its first line belongs. */
  method InsertByStart(spans: seq<AssemblyFunctionSpan>, s: AssemblyFunctionSpan) returns (r: seq<AssemblyFunctionSpan>)
    requires Ordered(spans) && s.start <= s.end
    requires forall x :: x in spans ==> x.end < s.start || s.end < x.start
    ensures Ordered(r) && forall x :: x in r <==> x in spans || x == s
  {
    var k := |spans|;
    while k > 0 && spans[k - 1].start > s.start
      invariant 0 <= k <= |spans|
      invariant forall i :: k <= i < |spans| ==> s.end < spans[i].start
    {
      k := k - 1;
      BeforeOrAfter(spans, k, s);
    }
    if k > 0 {
      BeforeOrAfter(spans, k - 1, s);
    }
    hide Ordered;
    r := spans[..k] + [s] + spans[k..];
    InsertedSpan(spans, k, s);
    InsertedMember(spans, k, s);
  }

  lemma BeforeOrAfter(spans: seq<AssemblyFunctionSpan>, k: nat, s: AssemblyFunctionSpan)
    requires Ordered(spans) && k < |spans| && forall x :: x in spans ==> x.end < s.start || s.end < x.start
    ensures spans[k].start <= spans[k].end && (spans[k].end < s.start || s.end < spans[k].start)
  {
    assert spans[k] in spans;
  }

  lemma InsertedMember(spans: seq<AssemblyFunctionSpan>, k: nat, s: AssemblyFunctionSpan)
    requires k <= |spans|
    ensures forall x :: x in spans[..k] + [s] + spans[k..] <==> x in spans || x == s
  {
    assert spans == spans[..k] + spans[k..];
  }

  lemma InsertedSpan(spans: seq<AssemblyFunctionSpan>, k: nat, s: AssemblyFunctionSpan)
    requires Ordered(spans) && s.start <= s.end && k <= |spans|
    requires k > 0 ==> spans[k - 1].start <= s.start && (spans[k - 1].end < s.start || s.end < spans[k - 1].start)
    requires forall i :: k <= i < |spans| ==> s.end < spans[i].start
    ensures Ordered(spans[..k] + [s] + spans[k..])
  {
    var r := spans[..k] + [s] + spans[k..];
    forall i | 0 <= i < |r| ensures r[i] == if i < k then spans[i] else if i == k then s else spans[i - 1] {
    }
    forall i, j | 0 <= i < j < |r| ensures r[i].end < r[j].start {
      if i < k && j == k && i < k - 1 {
        assert spans[i].end < spans[k - 1].start;
      }
    }
  }

  /** The parsed functions in the order of their lines. */
  method SortFunctions(lines: seq<string>, funcs: map<string, AssemblyFunctionSpan>)
    returns (sorted: seq<AssemblyFunctionSpan>)
    requires FunctionsOf(lines, funcs)
    ensures Ordered(sorted) && forall x :: x in sorted <==> x.name in funcs && funcs[x.name] == x
  {
    hide FunctionsOf, Ordered, LastByName;
    ghost var spans := SomeSpans(lines, funcs);
    sorted := [];
    SortedNothing();
    var rest := funcs.Keys;
    while rest != {}
      invariant rest <= funcs.Keys
      invariant Ordered(sorted)
      invariant forall x :: x in sorted <==> x.name in funcs && funcs[x.name] == x && x.name !in rest
      decreases |rest|
    {
      var name :| name in rest;
      NamedSpan(spans, funcs, name);
      forall x | x in sorted ensures x.end < funcs[name].start || funcs[name].end < x.start {
        NamedSpan(spans, funcs, x.name);
        Apart(spans, x, funcs[name]);
      }
      sorted := InsertByStart(sorted, funcs[name]);
      rest := rest - {name};
    }
  }

  lemma SomeSpans(lines: seq<string>, funcs: map<string, AssemblyFunctionSpan>)
    returns (spans: seq<AssemblyFunctionSpan>)
    requires FunctionsOf(lines, funcs)
    ensures Ordered(spans) && LastByName(spans, funcs)
  {
    hide SpanAt, Unclosed;
    spans :| Parsed(lines, spans, |lines|) && LastByName(spans, funcs);
  }

  lemma SortedNothing()
    ensures Ordered([])
  {
  }

  lemma NamedSpan(spans: seq<AssemblyFunctionSpan>, funcs: map<string, AssemblyFunctionSpan>, name: string)
    requires Ordered(spans) && LastByName(spans, funcs) && name in funcs
    ensures funcs[name].name == name && funcs[name] in spans && funcs[name].start <= funcs[name].end
  {
  }

  lemma Apart(spans: seq<AssemblyFunctionSpan>, x: AssemblyFunctionSpan, y: AssemblyFunctionSpan)
    requires Ordered(spans) && x in spans && y in spans && x != y
    ensures x.end < y.start || y.end < x.start
  {
  }

  // ----- Wrapping -----

  const SET_MOVE := "\t.set\tmove\n"
  const SET_NOMOVE := "\t.set\tnomove\n"

  predicate IsEntryLine(line: string, name: string) { Trim(line) == name + ":" }

  predicate IsEndLine(line: string, name: string) { Trim(line) == ".end\t" + name || Trim(line) == ".end " + name }

  function Around(line: string, name: string): seq<string> {
    (if IsEndLine(line, name) then [SET_MOVE] else []) + [line]
    + (if IsEntryLine(line, name) then [SET_NOMOVE] else [])
  }

  function Wrapped(lines: seq<string>, name: string): seq<string> {
    if lines == [] then []
    else Wrapped(lines[..|lines| - 1], name) + Around(lines[|lines| - 1], name)
  }

  method WrapNomove(lines: seq<string>, name: string) returns (r: seq<string>)
    ensures r == Wrapped(lines, name)
  {
    hide IsEntryLine, IsEndLine;
    r := [];
    for i := 0 to |lines|
      invariant r == Wrapped(lines[..i], name)
    {
      assert lines[..i + 1][..i] == lines[..i];
      ghost var before := r;
      if IsEndLine(lines[i], name) {
        r := r + [SET_MOVE];
      }
      var isEntry := IsEntryLine(lines[i], name);
      r := r + [lines[i]];
      if isEntry {
        r := r + [SET_NOMOVE];
      }
      assert r == before + Around(lines[i], name);
    }
    assert lines[..|lines|] == lines;
  }

  predicate IsMark(line: string) { line == SET_MOVE || line == SET_NOMOVE }

  /** longer is shorter with mark lines put in. */
  ghost predicate MarksAdded(shorter: seq<string>, longer: seq<string>)
    decreases |longer|
  {
    if longer == [] then shorter == []
    else
      || (shorter != [] && shorter[|shorter| - 1] == longer[|longer| - 1]
          && MarksAdded(shorter[..|shorter| - 1], longer[..|longer| - 1]))
      || (IsMark(longer[|longer| - 1]) && MarksAdded(shorter, longer[..|longer| - 1]))
  }

  lemma MarksAddedLine(shorter: seq<string>, longer: seq<string>, line: string)
    requires MarksAdded(shorter, longer)
    ensures MarksAdded(shorter + [line], longer + [line])
  {
    hide IsMark;
    assert (shorter + [line])[..|shorter|] == shorter && (longer + [line])[..|longer|] == longer;
  }

  lemma MarksAddedMark(shorter: seq<string>, longer: seq<string>, line: string)
    requires MarksAdded(shorter, longer) && IsMark(line)
    ensures MarksAdded(shorter, longer + [line])
  {
    hide IsMark;
    assert (longer + [line])[..|longer|] == longer;
  }

  lemma {:induction false} MarksAddedLines(shorter: seq<string>, longer: seq<string>, lines: seq<string>)
    requires MarksAdded(shorter, longer)
    ensures MarksAdded(shorter + lines, longer + lines)
    decreases |lines|
  {
    hide MarksAdded;
    if lines == [] {
      assert shorter + lines == shorter && longer + lines == longer;
    } else {
      var front, last := lines[..|lines| - 1], lines[|lines| - 1];
      MarksAddedLines(shorter, longer, front);
      MarksAddedLine(shorter + front, longer + front, last);
      assert shorter + lines == shorter + front + [last] && longer + lines == longer + front + [last];
    }
  }

  /** Wrapping only adds its two mark lines. */
  lemma {:induction false} WrappingOnlyAddsMarks(shorter: seq<string>, longer: seq<string>, lines: seq<string>, name: string)
    requires MarksAdded(shorter, longer)
    ensures MarksAdded(shorter + lines, longer + Wrapped(lines, name))
    decreases |lines|
  {
    hide MarksAdded, IsEntryLine, IsEndLine;
    if lines == [] {
      assert shorter + lines == shorter && longer + Wrapped(lines, name) == longer;
    } else {
      var front, line := lines[..|lines| - 1], lines[|lines| - 1];
      WrappingOnlyAddsMarks(shorter, longer, front, name);
      var s, l := shorter + front, longer + Wrapped(front, name);
      if IsEndLine(line, name) {
        MarksAddedMark(s, l, SET_MOVE);
        l := l + [SET_MOVE];
      }
      MarksAddedLine(s, l, line);
      l := l + [line];
      if IsEntryLine(line, name) {
        MarksAddedMark(s + [line], l, SET_NOMOVE);
        l := l + [SET_NOMOVE];
      }
      assert shorter + lines == s + [line];
      assert longer + Wrapped(lines, name) == l;
    }
  }

  /** Whether .set nomove is in force after these lines. */
  function NomoveAfter(lines: seq<string>, before: bool): bool {
    if lines == [] then before
    else
      var line := lines[|lines| - 1];
      if line == SET_NOMOVE then true
      else if line == SET_MOVE then false
      else NomoveAfter(lines[..|lines| - 1], before)
  }

  /** After this line of a wrapped function .set nomove is in force. */
  predicate Opens(line: string, name: string) { IsEntryLine(line, name) || line == SET_NOMOVE }

  /** After this one .set move is. */
  predicate Closes(line: string, name: string) {
    !Opens(line, name) && (line == SET_MOVE || IsEndLine(line, name))
  }

  lemma NomoveAfterMark(lines: seq<string>, line: string, before: bool)
    ensures NomoveAfter(lines + [line], before) ==
      if line == SET_NOMOVE then true else if line == SET_MOVE then false else NomoveAfter(lines, before)
  {
    assert (lines + [line])[..|lines|] == lines;
  }

  lemma NomoveAfterLine(lines: seq<string>, line: string, name: string, before: bool)
    ensures NomoveAfter(lines + Around(line, name), before) ==
      if Opens(line, name) then true else if Closes(line, name) then false else NomoveAfter(lines, before)
  {
    hide NomoveAfter, IsEntryLine, IsEndLine;
    var l := lines;
    if IsEndLine(line, name) {
      NomoveAfterMark(l, SET_MOVE, before);
      l := l + [SET_MOVE];
    }
    NomoveAfterMark(l, line, before);
    l := l + [line];
    if IsEntryLine(line, name) {
      NomoveAfterMark(l, SET_NOMOVE, before);
      l := l + [SET_NOMOVE];
    }
    assert lines + Around(line, name) == l;
  }

  /** Behind a wrapped function .set nomove is in force exactly when its entry label, or a .set nomove of its
      own, is followed by no end line spelled exactly and no .set move; or when it was in force before and
      neither kind of line comes. */
  lemma {:induction false} NomoveStaysExactly(lines: seq<string>, name: string, before: bool)
    ensures NomoveAfter(Wrapped(lines, name), before) <==>
      || (exists i :: 0 <= i < |lines| && Opens(lines[i], name) && forall j :: i < j < |lines| ==> !Closes(lines[j], name))
      || (before && forall j :: 0 <= j < |lines| ==> !Closes(lines[j], name))
    decreases |lines|
  {
    hide Opens, Closes, NomoveAfter, Around;
    if lines == [] {
      NothingWrapped(name, before);
    } else {
      var n := |lines| - 1;
      var front, line := lines[..n], lines[n];
      NomoveStaysExactly(front, name, before);
      NomoveAfterLine(Wrapped(front, name), line, name, before);
      NotBoth(line, name);
      if i :| 0 <= i < |front| && Opens(front[i], name) && forall j :: i < j < |front| ==> !Closes(front[j], name) {
        assert lines[i] == front[i];
      }
      if Opens(line, name) {
        assert Opens(lines[n], name);
      } else if i :| 0 <= i < |lines| && Opens(lines[i], name) && forall j :: i < j < |lines| ==> !Closes(lines[j], name) {
        assert front[i] == lines[i] && !Closes(lines[n], name);
      }
    }
  }

  lemma NotBoth(line: string, name: string)
    ensures !(Opens(line, name) && Closes(line, name))
  {
  }

  lemma NothingWrapped(name: string, before: bool)
    ensures NomoveAfter(Wrapped([], name), before) == before
  {
  }

  // ----- The spliced file -----

  predicate InFile(lines: seq<string>, spans: seq<AssemblyFunctionSpan>) {
    Ordered(spans) && forall i :: 0 <= i < |spans| ==> spans[i].end < |lines|
  }

  lemma ResumesBefore(lines: seq<string>, spans: seq<AssemblyFunctionSpan>, n: nat)
    requires InFile(lines, spans) && n <= |spans|
    ensures Resume(spans, n) <= (if n < |spans| then spans[n].start else |lines|) <= |lines|
    ensures InFile(lines, spans[..n]) && Resume(spans[..n], n) == Resume(spans, n)
  {
  }

  function OwnLines(lines: seq<string>, s: AssemblyFunctionSpan): (r: seq<string>)
    requires s.start <= s.end < |lines|
    ensures |r| == s.end + 1 - s.start
  {
    lines[s.start..s.end + 1]
  }

  /** The lines up to the end of the last span, with a body in place of each span. */
  function SplicedUpTo(lines: seq<string>, spans: seq<AssemblyFunctionSpan>, bodies: seq<seq<string>>): seq<string>
    requires InFile(lines, spans) && |bodies| == |spans|
  {
    if spans == [] then []
    else
      var n := |spans| - 1;
      ResumesBefore(lines, spans, n);
      SplicedUpTo(lines, spans[..n], bodies[..n]) + lines[Resume(spans, n)..spans[n].start] + bodies[n]
  }

  function Spliced(lines: seq<string>, spans: seq<AssemblyFunctionSpan>, bodies: seq<seq<string>>): seq<string>
    requires InFile(lines, spans) && |bodies| == |spans|
  {
    ResumesBefore(lines, spans, |spans|);
    SplicedUpTo(lines, spans, bodies) + lines[Resume(spans, |spans|)..]
  }

  // ----- Which body a function gets -----

  predicate IsDebugFlag(f: string) { f == "-Wa,-g" || f == "-O0" }

  predicate IsOptFlag(f: string) { StartsWith(f, "-Wa,-O") }

  ghost predicate NeedsNomove(flags: seq<string>, overallHasWaOpt: bool) {
    && overallHasWaOpt && (exists i :: 0 <= i < |flags| && IsDebugFlag(flags[i]))
    && forall i :: 0 <= i < |flags| ==> !IsOptFlag(flags[i])
  }

  method ScanFlags(flags: seq<string>, overallHasWaOpt: bool) returns (needsNomove: bool)
    ensures needsNomove <==> NeedsNomove(flags, overallHasWaOpt)
  {
    var hasDebug, hasOpt := false, false;
    for i := 0 to |flags|
      invariant hasDebug <==> exists k :: 0 <= k < i && IsDebugFlag(flags[k])
      invariant hasOpt <==> exists k :: 0 <= k < i && IsOptFlag(flags[k])
    {
      if IsDebugFlag(flags[i]) {
        hasDebug := true;
      }
      if IsOptFlag(flags[i]) {
        hasOpt := true;
      }
    }
    needsNomove := hasDebug && !hasOpt && overallHasWaOpt;
  }

  /** One assembly file for each flag set, the first being the base, and the flag set of each function. */
  datatype Files = Files(
    lines: seq<seq<string>>, flagSets: seq<seq<string>>, flagSetOf: map<string, nat>, overallHasWaOpt: bool)
  {
    predicate Valid() {
      |lines| == |flagSets| > 0 && forall n :: n in flagSetOf ==> flagSetOf[n] < |flagSets|
    }

    function FlagSet(name: string): nat { if name in flagSetOf then flagSetOf[name] else 0 }
  }

  /** The lines that stand for a function: its own in the base file, or those of its flag set's file with
      its labels renamed. */
  ghost predicate Provides(f: Files, funcs: seq<map<string, AssemblyFunctionSpan>>, s: AssemblyFunctionSpan, body: seq<string>)
    requires f.Valid() && |funcs| == |f.lines| && s.start <= s.end < |f.lines[0]|
  {
    var j := f.FlagSet(s.name);
    if j == 0 || s.name !in funcs[j] then body == OwnLines(f.lines[0], s)
    else
      var source := funcs[j][s.name];
      source.start <= source.end < |f.lines[j]|
      && RenamedInPasses(s.name, OwnLines(f.lines[j], source), body)
  }

  ghost predicate Wraps(f: Files, name: string)
    requires f.Valid()
  {
    NeedsNomove(f.flagSets[f.FlagSet(name)], f.overallHasWaOpt)
  }

  ghost predicate BodyOf(f: Files, funcs: seq<map<string, AssemblyFunctionSpan>>, s: AssemblyFunctionSpan, body: seq<string>)
    requires f.Valid() && |funcs| == |f.lines| && s.start <= s.end < |f.lines[0]|
  {
    if Wraps(f, s.name) then
      exists plain :: Provides(f, funcs, s, plain) && body == Wrapped(plain, s.name)
    else Provides(f, funcs, s, body)
  }

  /** The functions of the base file in order, and a right body for each. */
  ghost predicate Composed(f: Files, funcs: seq<map<string, AssemblyFunctionSpan>>,
                           spans: seq<AssemblyFunctionSpan>, bodies: seq<seq<string>>)
    requires f.Valid()
  {
    && |funcs| == |f.lines| && (forall j :: 0 <= j < |funcs| ==> FunctionsOf(f.lines[j], funcs[j]))
    && InFile(f.lines[0], spans) && |bodies| == |spans|
    && (forall x :: x in spans <==> x.name in funcs[0] && funcs[0][x.name] == x)
    && forall i :: 0 <= i < |spans| ==> BodyOf(f, funcs, spans[i], bodies[i])
  }

  lemma FunctionInFile(lines: seq<string>, funcs: map<string, AssemblyFunctionSpan>, name: string)
    requires FunctionsOf(lines, funcs) && name in funcs
    ensures funcs[name].start <= funcs[name].end < |lines| && funcs[name].name == name
    ensures EntName(lines[funcs[name].start]) == Some(name)
  {
    hide EntName, IsEnd, ClosesAt;
    var spans :| Parsed(lines, spans, |lines|) && LastByName(spans, funcs);
    var i :| 0 <= i < |spans| && spans[i] == funcs[name];
    assert SpanAt(lines, spans[i]);
  }

  method CopyLines(out: seq<string>, lines: seq<string>, from: nat, to: nat) returns (r: seq<string>)
    requires from <= to <= |lines|
    ensures r == out + lines[from..to]
  {
    r := out;
    for i := from to to
      invariant r == out + lines[from..i]
    {
      r := r + [lines[i]];
    }
  }

  method ComposeBody(f: Files, funcs: seq<map<string, AssemblyFunctionSpan>>, s: AssemblyFunctionSpan)
    returns (body: seq<string>)
    requires f.Valid() && |funcs| == |f.lines| && s.start <= s.end < |f.lines[0]|
    requires forall j :: 0 <= j < |funcs| ==> FunctionsOf(f.lines[j], funcs[j])
    ensures BodyOf(f, funcs, s, body)
  {
    hide Wrapped, RenamedInPasses, NeedsNomove, FunctionsOf;
    var j := f.FlagSet(s.name);
    if j == 0 || s.name !in funcs[j] {
      body := CopyLines([], f.lines[0], s.start, s.end + 1);
      assert body == OwnLines(f.lines[0], s);
    } else {
      var source := funcs[j][s.name];
      FunctionInFile(f.lines[j], funcs[j], s.name);
      body := CopyLines([], f.lines[j], source.start, source.end + 1);
      assert body == OwnLines(f.lines[j], source);
      body := RenameLabels(s.name, body);
    }
    assert Provides(f, funcs, s, body);
    var needsNomove := ScanFlags(f.flagSets[j], f.overallHasWaOpt);
    if needsNomove {
      body := WrapNomove(body, s.name);
    }
  }

  method ParseAll(f: Files) returns (allFuncs: seq<map<string, AssemblyFunctionSpan>>)
    requires f.Valid()
    ensures |allFuncs| == |f.lines| && forall j :: 0 <= j < |allFuncs| ==> FunctionsOf(f.lines[j], allFuncs[j])
  {
    hide FunctionsOf;
    allFuncs := [];
    for j := 0 to |f.lines|
      invariant |allFuncs| == j && forall k :: 0 <= k < j ==> FunctionsOf(f.lines[k], allFuncs[k])
    {
      var parsed := ParseAssemblyFunctions(f.lines[j]);
      allFuncs := allFuncs + [parsed];
    }
  }

  /** A right body for each function. */
  ghost predicate Bodies(f: Files, funcs: seq<map<string, AssemblyFunctionSpan>>, spans: seq<AssemblyFunctionSpan>,
                         bodies: seq<seq<string>>)
    requires f.Valid() && |funcs| == |f.lines|
  {
    && |bodies| <= |spans|
    && forall k :: 0 <= k < |bodies| ==>
         spans[k].start <= spans[k].end < |f.lines[0]| && BodyOf(f, funcs, spans[k], bodies[k])
  }

  method SpliceSpans(f: Files, funcs: seq<map<string, AssemblyFunctionSpan>>, spans: seq<AssemblyFunctionSpan>)
    returns (spliced: seq<string>)
    requires f.Valid() && |funcs| == |f.lines| && InFile(f.lines[0], spans)
    requires forall j :: 0 <= j < |funcs| ==> FunctionsOf(f.lines[j], funcs[j])
    ensures exists bodies :: Bodies(f, funcs, spans, bodies) && |bodies| == |spans|
                             && spliced == Spliced(f.lines[0], spans, bodies)
  {
    hide BodyOf, InFile, Ordered, FunctionsOf, Files.FlagSet, SplicedUpTo;
    spliced := [];
    ghost var bodies: seq<seq<string>> := [];
    var last := 0;
    SplicedNothing(f.lines[0]);
    for i := 0 to |spans|
      invariant |bodies| == i && InFile(f.lines[0], spans[..i]) && last == Resume(spans, i)
      invariant spliced == SplicedUpTo(f.lines[0], spans[..i], bodies)
      invariant Bodies(f, funcs, spans, bodies)
    {
      SpanInFile(f.lines[0], spans, i);
      var body := ComposeBody(f, funcs, spans[i]);
      SplicedNext(f.lines[0], spans, bodies, body);
      spliced := CopyLines(spliced, f.lines[0], last, spans[i].start);
      spliced := CopyLines(spliced, body, 0, |body|);
      bodies := bodies + [body];
      last := spans[i].end + 1;
    }
    ResumesBefore(f.lines[0], spans, |spans|);
    assert spans[..|spans|] == spans;
    spliced := CopyLines(spliced, f.lines[0], last, |f.lines[0]|);
    assert f.lines[0][last..|f.lines[0]|] == f.lines[0][last..];
    assert spliced == Spliced(f.lines[0], spans, bodies);
  }

  /** The output is the base file with a right body in place of each function. */
  ghost predicate SplicedFrom(f: Files, spliced: seq<string>)
    requires f.Valid()
  {
    exists funcs, spans, bodies ::
      Composed(f, funcs, spans, bodies) && spliced == Spliced(f.lines[0], spans, bodies)
  }

  method SplicePerFunctionAssembly(f: Files) returns (spliced: seq<string>)
    requires f.Valid()
    ensures SplicedFrom(f, spliced)
  {
    hide FunctionsOf, BodyOf, InFile, Ordered, Spliced;
    var allFuncs := ParseAll(f);
    var sorted := SortFunctions(f.lines[0], allFuncs[0]);
    SortedInFile(f.lines[0], allFuncs[0], sorted);
    spliced := SpliceSpans(f, allFuncs, sorted);
    ghost var bodies :| Bodies(f, allFuncs, sorted, bodies) && |bodies| == |sorted|
                        && spliced == Spliced(f.lines[0], sorted, bodies);
    assert Composed(f, allFuncs, sorted, bodies);
  }

  lemma SortedInFile(lines: seq<string>, funcs: map<string, AssemblyFunctionSpan>, sorted: seq<AssemblyFunctionSpan>)
    requires FunctionsOf(lines, funcs) && Ordered(sorted)
    requires forall x :: x in sorted <==> x.name in funcs && funcs[x.name] == x
    ensures InFile(lines, sorted)
  {
    hide FunctionsOf, EntName;
    forall i | 0 <= i < |sorted| ensures sorted[i].end < |lines| {
      assert sorted[i] in sorted;
      FunctionInFile(lines, funcs, sorted[i].name);
    }
  }

  lemma SpanInFile(lines: seq<string>, spans: seq<AssemblyFunctionSpan>, i: nat)
    requires InFile(lines, spans) && i < |spans|
    ensures spans[i].start <= spans[i].end < |lines|
  {
  }

  lemma SplicedNothing(lines: seq<string>)
    ensures InFile(lines, []) && SplicedUpTo(lines, [], []) == []
  {
  }

  lemma SplicedNext(lines: seq<string>, spans: seq<AssemblyFunctionSpan>, bodies: seq<seq<string>>, body: seq<string>)
    requires InFile(lines, spans) && |bodies| < |spans|
    ensures var n := |bodies|;
      && InFile(lines, spans[..n]) && InFile(lines, spans[..n + 1])
      && Resume(spans, n) <= spans[n].start <= |lines|
      && SplicedUpTo(lines, spans[..n + 1], bodies + [body])
         == SplicedUpTo(lines, spans[..n], bodies) + lines[Resume(spans, n)..spans[n].start] + body[0..|body|]
  {
    hide InFile, Ordered, SplicedUpTo;
    var n := |bodies|;
    ResumesBefore(lines, spans, n);
    ResumesBefore(lines, spans, n + 1);
    var spans', bodies' := spans[..n + 1], bodies + [body];
    SplicedUnfolds(lines, spans', bodies');
    assert spans'[..n] == spans[..n] && bodies'[..n] == bodies;
    assert body[0..|body|] == body;
  }

  lemma SplicedUnfolds(lines: seq<string>, spans: seq<AssemblyFunctionSpan>, bodies: seq<seq<string>>)
    requires InFile(lines, spans) && |bodies| == |spans| > 0
    ensures var n := |spans| - 1;
      && InFile(lines, spans[..n]) && Resume(spans, n) <= spans[n].start <= spans[n].end < |lines|
      && SplicedUpTo(lines, spans, bodies)
         == SplicedUpTo(lines, spans[..n], bodies[..n]) + lines[Resume(spans, n)..spans[n].start] + bodies[n]
  {
    ResumesBefore(lines, spans, |spans| - 1);
  }

  // ----- What splicing keeps -----

  /** Bodies that are the functions' own lines give the file back. */
  lemma {:induction false} OwnBodiesGiveBack(lines: seq<string>, spans: seq<AssemblyFunctionSpan>, bodies: seq<seq<string>>)
    requires InFile(lines, spans) && |bodies| == |spans|
    requires forall i :: 0 <= i < |spans| ==> bodies[i] == OwnLines(lines, spans[i])
    ensures SplicedUpTo(lines, spans, bodies) == lines[..Resume(spans, |spans|)]
    ensures Spliced(lines, spans, bodies) == lines
  {
    ResumesBefore(lines, spans, |spans|);
    OwnBodiesSoFar(lines, spans, bodies);
  }

  lemma {:induction false} OwnBodiesSoFar(lines: seq<string>, spans: seq<AssemblyFunctionSpan>, bodies: seq<seq<string>>)
    requires InFile(lines, spans) && |bodies| == |spans|
    requires forall i :: 0 <= i < |spans| ==> bodies[i] == OwnLines(lines, spans[i])
    ensures SplicedUpTo(lines, spans, bodies) == lines[..Resume(spans, |spans|)]
    decreases |spans|
  {
    hide InFile, SplicedUpTo;
    ResumesBefore(lines, spans, |spans|);
    if spans == [] {
      SplicedNothing(lines);
    } else {
      var n := |spans| - 1;
      SplicedUnfolds(lines, spans, bodies);
      ResumesBefore(lines, spans, n);
      PrefixOfOwn(lines, spans, bodies, n);
      OwnBodiesSoFar(lines, spans[..n], bodies[..n]);
      assert lines[..Resume(spans, n)] + lines[Resume(spans, n)..spans[n].start] == lines[..spans[n].start];
      assert lines[..spans[n].start] + OwnLines(lines, spans[n]) == lines[..spans[n].end + 1];
    }
  }

  lemma PrefixOfOwn(lines: seq<string>, spans: seq<AssemblyFunctionSpan>, bodies: seq<seq<string>>, n: nat)
    requires InFile(lines, spans) && |bodies| == |spans| && n <= |spans|
    requires forall i :: 0 <= i < |spans| ==> bodies[i] == OwnLines(lines, spans[i])
    ensures InFile(lines, spans[..n])
    ensures forall i :: 0 <= i < n ==> bodies[..n][i] == OwnLines(lines, spans[..n][i])
  {
    hide OwnLines;
  }

  /** How far the first n bodies move the lines after them. */
  function Shift(spans: seq<AssemblyFunctionSpan>, bodies: seq<seq<string>>, n: nat): int
    requires n <= |spans| == |bodies|
  {
    if n == 0 then 0
    else Shift(spans, bodies, n - 1) + |bodies[n - 1]| - (spans[n - 1].end + 1 - spans[n - 1].start)
  }

  /** From line a of the output on stand these lines. */
  predicate StandsAt(out: seq<string>, a: int, lines: seq<string>) { 0 <= a <= a + |lines| <= |out| && out[a..a + |lines|] == lines }

  lemma StandsLonger(out: seq<string>, a: int, lines: seq<string>, more: seq<string>)
    requires StandsAt(out, a, lines)
    ensures StandsAt(out + more, a, lines)
  {
    assert (out + more)[a..a + |lines|] == out[a..a + |lines|];
  }

  lemma StandsTwiceLonger(out: seq<string>, a: int, lines: seq<string>, more: seq<string>, more': seq<string>)
    requires StandsAt(out, a, lines)
    ensures StandsAt(out + more + more', a, lines)
  {
    StandsLonger(out, a, lines, more);
    StandsLonger(out + more, a, lines, more');
  }

  lemma StandsLast(out: seq<string>, lines: seq<string>)
    ensures StandsAt(out + lines, |out|, lines)
  {
  }

  lemma {:induction false} ShiftOfPrefix(spans: seq<AssemblyFunctionSpan>, bodies: seq<seq<string>>, m: nat, n: nat)
    requires n <= m <= |spans| == |bodies|
    ensures Shift(spans[..m], bodies[..m], n) == Shift(spans, bodies, n)
  {
    if n > 0 {
      ShiftOfPrefix(spans, bodies, m, n - 1);
    }
  }

  /** Gap k, before span k or after the last one. */
  function Gap(lines: seq<string>, spans: seq<AssemblyFunctionSpan>, k: nat): seq<string>
    requires InFile(lines, spans) && k <= |spans|
  {
    ResumesBefore(lines, spans, k);
    lines[Resume(spans, k)..if k < |spans| then spans[k].start else |lines|]
  }

  lemma SameGap(lines: seq<string>, spans: seq<AssemblyFunctionSpan>, n: nat, k: nat)
    requires InFile(lines, spans) && k < n <= |spans|
    ensures InFile(lines, spans[..n]) && Gap(lines, spans[..n], k) == Gap(lines, spans, k)
    ensures Resume(spans[..n], k) == Resume(spans, k)
  {
    ResumesBefore(lines, spans, n);
  }

  /** The length of the output, and the place of every gap line and every body in it: gaps and bodies follow
      each other, in the order of the file, and nothing else is there. */
  lemma {:induction false} PartsStand(lines: seq<string>, spans: seq<AssemblyFunctionSpan>, bodies: seq<seq<string>>, k: nat)
    requires InFile(lines, spans) && |bodies| == |spans| && k < |spans|
    ensures |SplicedUpTo(lines, spans, bodies)| == Resume(spans, |spans|) + Shift(spans, bodies, |spans|)
    ensures StandsAt(SplicedUpTo(lines, spans, bodies), Resume(spans, k) + Shift(spans, bodies, k), Gap(lines, spans, k))
    ensures StandsAt(SplicedUpTo(lines, spans, bodies), spans[k].start + Shift(spans, bodies, k), bodies[k])
    decreases |spans|
  {
    hide InFile, Ordered, SplicedUpTo, StandsAt;
    var n := |spans| - 1;
    SplicedUnfolds(lines, spans, bodies);
    ResumesBefore(lines, spans, k);
    ResumesBefore(lines, spans, n);
    ShiftOfPrefix(spans, bodies, n, n);
    ShiftOfPrefix(spans, bodies, n, if k < n then k else n);
    var front := SplicedUpTo(lines, spans[..n], bodies[..n]);
    var gap := lines[Resume(spans, n)..spans[n].start];
    UpToLength(lines, spans[..n], bodies[..n]);
    UpToLength(lines, spans, bodies);
    if k < n {
      PartsStand(lines, spans[..n], bodies[..n], k);
      SameGap(lines, spans, n, k);
      StandsTwiceLonger(front, Resume(spans, k) + Shift(spans, bodies, k), Gap(lines, spans, k), gap, bodies[n]);
      StandsTwiceLonger(front, spans[k].start + Shift(spans, bodies, k), bodies[k], gap, bodies[n]);
    } else {
      StandsLast(front, gap);
      StandsLonger(front + gap, |front|, gap, bodies[n]);
      StandsLast(front + gap, bodies[n]);
    }
  }

  lemma {:induction false} UpToLength(lines: seq<string>, spans: seq<AssemblyFunctionSpan>, bodies: seq<seq<string>>)
    requires InFile(lines, spans) && |bodies| == |spans|
    ensures |SplicedUpTo(lines, spans, bodies)| == Resume(spans, |spans|) + Shift(spans, bodies, |spans|)
    decreases |spans|
  {
    if spans != [] {
      var n := |spans| - 1;
      SplicedUnfolds(lines, spans, bodies);
      ResumesBefore(lines, spans, n);
      ShiftOfPrefix(spans, bodies, n, n);
      hide SplicedUpTo;
      UpToLength(lines, spans[..n], bodies[..n]);
    }
  }

  /** The text outside the functions comes out unchanged and in order, with the bodies in between. */
  lemma SplicingConserves(lines: seq<string>, spans: seq<AssemblyFunctionSpan>, bodies: seq<seq<string>>, k: nat)
    requires InFile(lines, spans) && |bodies| == |spans| && k <= |spans|
    ensures |Spliced(lines, spans, bodies)| == |lines| + Shift(spans, bodies, |spans|)
    ensures StandsAt(Spliced(lines, spans, bodies), Resume(spans, k) + Shift(spans, bodies, k), Gap(lines, spans, k))
    ensures k < |spans| ==>
      StandsAt(Spliced(lines, spans, bodies), spans[k].start + Shift(spans, bodies, k), bodies[k])
  {
    hide InFile, Ordered, SplicedUpTo, StandsAt, Shift;
    ResumesBefore(lines, spans, |spans|);
    ResumesBefore(lines, spans, k);
    UpToLength(lines, spans, bodies);
    var front, rest := SplicedUpTo(lines, spans, bodies), lines[Resume(spans, |spans|)..];
    if k < |spans| {
      PartsStand(lines, spans, bodies, k);
      StandsLonger(front, Resume(spans, k) + Shift(spans, bodies, k), Gap(lines, spans, k), rest);
      StandsLonger(front, spans[k].start + Shift(spans, bodies, k), bodies[k], rest);
    } else {
      StandsLast(front, rest);
      assert rest == Gap(lines, spans, k);
    }
  }

  /** A function's own lines, wrapped or not. */
  predicate IsBaseBody(lines: seq<string>, s: AssemblyFunctionSpan, body: seq<string>)
    requires s.start <= s.end < |lines|
  {
    body == OwnLines(lines, s) || body == Wrapped(OwnLines(lines, s), s.name)
  }

  lemma {:induction false} BaseBodiesSoFar(lines: seq<string>, spans: seq<AssemblyFunctionSpan>, bodies: seq<seq<string>>)
    requires InFile(lines, spans) && |bodies| == |spans|
    requires forall i :: 0 <= i < |spans| ==> IsBaseBody(lines, spans[i], bodies[i])
    ensures Resume(spans, |spans|) <= |lines|
    ensures MarksAdded(lines[..Resume(spans, |spans|)], SplicedUpTo(lines, spans, bodies))
    decreases |spans|
  {
    hide MarksAdded, IsBaseBody, InFile, SplicedUpTo;
    ResumesBefore(lines, spans, |spans|);
    if spans == [] {
      NothingAdded();
      SplicedNothing(lines);
      assert lines[..0] == [];
    } else {
      var n := |spans| - 1;
      SplicedUnfolds(lines, spans, bodies);
      ResumesBefore(lines, spans, n);
      PrefixOfBase(lines, spans, bodies, n);
      BaseBodiesSoFar(lines, spans[..n], bodies[..n]);
      BaseBodyNext(lines, SplicedUpTo(lines, spans[..n], bodies[..n]), Resume(spans, n), spans[n], bodies[n]);
    }
  }

  lemma PrefixOfBase(lines: seq<string>, spans: seq<AssemblyFunctionSpan>, bodies: seq<seq<string>>, n: nat)
    requires InFile(lines, spans) && |bodies| == |spans| && n <= |spans|
    requires forall i :: 0 <= i < |spans| ==> IsBaseBody(lines, spans[i], bodies[i])
    ensures InFile(lines, spans[..n])
    ensures forall i :: 0 <= i < n ==> IsBaseBody(lines, spans[..n][i], bodies[..n][i])
  {
    hide IsBaseBody;
  }

  lemma NothingAdded()
    ensures MarksAdded([], [])
  {
  }

  lemma BaseBodyNext(lines: seq<string>, out: seq<string>, at: nat, s: AssemblyFunctionSpan, body: seq<string>)
    requires at <= s.start <= s.end < |lines| && MarksAdded(lines[..at], out) && IsBaseBody(lines, s, body)
    ensures MarksAdded(lines[..s.end + 1], out + lines[at..s.start] + body)
  {
    hide MarksAdded, Wrapped;
    var gap, own := lines[at..s.start], OwnLines(lines, s);
    MarksAddedLines(lines[..at], out, gap);
    MarksAddedLines(lines[..at] + gap, out + gap, own);
    WrappingOnlyAddsMarks(lines[..at] + gap, out + gap, own, s.name);
    assert lines[..at] + gap + own == lines[..s.end + 1];
  }

  /** No other file provides the function. */
  predicate FromBase(f: Files, funcs: seq<map<string, AssemblyFunctionSpan>>, name: string)
    requires f.Valid() && |funcs| == |f.lines|
  {
    f.FlagSet(name) == 0 || name !in funcs[f.FlagSet(name)]
  }

  lemma BaseBody(f: Files, funcs: seq<map<string, AssemblyFunctionSpan>>, s: AssemblyFunctionSpan, body: seq<string>)
    requires f.Valid() && |funcs| == |f.lines| && s.start <= s.end < |f.lines[0]|
    requires BodyOf(f, funcs, s, body) && FromBase(f, funcs, s.name)
    ensures IsBaseBody(f.lines[0], s, body)
    ensures !Wraps(f, s.name) ==> body == OwnLines(f.lines[0], s)
  {
    hide Wrapped, Wraps, OwnLines;
  }

  /** When the base file provides every function, splicing gives it back; where wrapping applies it adds its
      mark lines and nothing else. */
  lemma DefaultFlagsKeepTheFile(f: Files, funcs: seq<map<string, AssemblyFunctionSpan>>,
                                spans: seq<AssemblyFunctionSpan>, bodies: seq<seq<string>>)
    requires f.Valid() && Composed(f, funcs, spans, bodies)
    requires forall i :: 0 <= i < |spans| ==> FromBase(f, funcs, spans[i].name)
    ensures MarksAdded(f.lines[0], Spliced(f.lines[0], spans, bodies))
    ensures (forall i :: 0 <= i < |spans| ==> !Wraps(f, spans[i].name)) ==> Spliced(f.lines[0], spans, bodies) == f.lines[0]
  {
    hide MarksAdded, Wrapped, SplicedUpTo, BodyOf, FromBase, FunctionsOf, Wraps, IsBaseBody;
    var lines := f.lines[0];
    forall i | 0 <= i < |spans|
      ensures IsBaseBody(lines, spans[i], bodies[i])
      ensures !Wraps(f, spans[i].name) ==> bodies[i] == OwnLines(lines, spans[i])
    {
      BaseBody(f, funcs, spans[i], bodies[i]);
    }
    hide Composed, Ordered;
    BaseBodiesSoFar(lines, spans, bodies);
    var at := Resume(spans, |spans|);
    MarksAddedLines(lines[..at], SplicedUpTo(lines, spans, bodies), lines[at..]);
    assert lines[..at] + lines[at..] == lines;
    if forall i :: 0 <= i < |spans| ==> !Wraps(f, spans[i].name) {
      OwnBodiesGiveBack(lines, spans, bodies);
    }
  }
}
