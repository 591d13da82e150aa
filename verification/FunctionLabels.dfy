/** Giving the local labels of a spliced function names of their own: core/assembly_aligner.cc. */
module FunctionLabels {
  import opened LabelRenaming
  import opened Strings
  import opened Wrappers

  // ----- The labels a function defines -----

  function FirstIndex(s: string, c: char): (r: Option<nat>)
    ensures r.Some? ==> r.value < |s| && s[r.value] == c && c !in s[..r.value]
    ensures r.None? ==> c !in s
  {
    if s == "" then None
    else if s[0] == c then Some(0)
    else
      var r := FirstIndex(s[1..], c);
      if r.None? then None
      else
        assert s[..r.value + 1] == [s[0]] + s[1..][..r.value];
        Some(r.value + 1)
  }

  function LastIndex(s: string, c: char): (r: Option<nat>)
    ensures r.Some? ==> r.value < |s| && s[r.value] == c && c !in s[r.value + 1..]
    ensures r.None? ==> c !in s
  {
    if s == "" then None
    else if s[|s| - 1] == c then Some(|s| - 1)
    else
      var r := LastIndex(s[..|s| - 1], c);
      if r.Some? then
        assert s[r.value + 1..] == s[..|s| - 1][r.value + 1..] + [s[|s| - 1]];
        r
      else
        None
  }

  /** The local label before the first colon of a line. */
  function DefinedLabel(line: string): (r: Option<string>)
    ensures r.Some? ==> IsLabel(r.value)
  {
    var colon := FirstIndex(line, ':');
    if colon.None? then None
    else
      var dot := LastIndex(line[..colon.value], '.');
      if dot.None? || dot.value + 1 >= colon.value || line[dot.value + 1] != 'L' then None
      else
        var text := line[dot.value..colon.value];
        if AllWord(text[2..]) then
          assert forall i :: 0 <= i < |text[1..]| ==> text[1..][i] == if i == 0 then 'L' else text[2..][i - 1];
          Some(text)
        else None
  }

  // ----- Generated labels -----

  function NewLabel(name: string, lbl: string): string
    requires IsLabel(lbl)
  {
    ".L_sp_" + name + "_" + lbl[2..]
  }

  /** All labels renamed for one function. */
  ghost function Generated(name: string, labels: set<string>): map<string, string>
    requires forall l :: l in labels ==> IsLabel(l)
  {
    map l | l in labels :: NewLabel(name, l)
  }

  lemma NewLabelIsLabel(name: string, lbl: string)
    requires IsLabel(lbl)
    ensures |NewLabel(name, lbl)| > |lbl| && EndsInWord(NewLabel(name, lbl))
    ensures AllWord(name) ==> IsLabel(NewLabel(name, lbl))
  {
    var r := NewLabel(name, lbl);
    LabelEndsInWord(lbl);
    assert r[|r| - 1] == if |lbl| > 2 then lbl[|lbl| - 1] else '_';
    if AllWord(name) {
      var tail := lbl[2..];
      assert forall i :: 0 <= i < |tail| ==> tail[i] == lbl[1..][i + 1];
      assert r[1..] == "L_sp_" + name + "_" + tail;
    }
  }

  /** Within one function no two labels become one. */
  lemma NewLabelsDiffer(name: string, lbl: string, lbl': string)
    requires IsLabel(lbl) && IsLabel(lbl') && NewLabel(name, lbl) == NewLabel(name, lbl')
    ensures lbl == lbl'
  {
    var r, k := NewLabel(name, lbl), |name| + 7;
    assert r[k..] == lbl[2..] && r[k..] == lbl'[2..];
    assert lbl == lbl[..2] + lbl[2..] && lbl' == lbl'[..2] + lbl'[2..];
    assert lbl[..2] == lbl'[..2];
  }

  /** The second name goes on where the first stops, with an underscore, and the suffix of the first label
      spells the rest. */
  predicate Meets(name: string, lbl: string, name': string, lbl': string)
    requires IsLabel(lbl) && IsLabel(lbl')
  {
    && |name| < |name'| && name + "_" <= name'
    && lbl[2..] == name'[|name| + 1..] + "_" + lbl'[2..]
  }

  /** Labels of two functions become one exactly when they are one label of one function, or one name goes
      on from the other with an underscore and the label of the other spells the rest. */
  lemma NewLabelsMeetExactly(name: string, lbl: string, name': string, lbl': string)
    requires IsLabel(lbl) && IsLabel(lbl')
    ensures NewLabel(name, lbl) == NewLabel(name', lbl') <==>
              || (name == name' && lbl == lbl')
              || Meets(name, lbl, name', lbl') || Meets(name', lbl', name, lbl)
  {
    hide IsLabel;
    if Meets(name, lbl, name', lbl') {
      MeetingLabels(name, lbl, name', lbl');
    } else if Meets(name', lbl', name, lbl) {
      MeetingLabels(name', lbl', name, lbl);
    }
    if NewLabel(name, lbl) == NewLabel(name', lbl') {
      if |name| < |name'| {
        EqualLabelsMeet(name, lbl, name', lbl');
      } else if |name'| < |name| {
        EqualLabelsMeet(name', lbl', name, lbl);
      } else {
        var r, k := NewLabel(name, lbl), |name| + 6;
        assert r[6..k] == name && r[6..k] == name';
        NewLabelsDiffer(name, lbl, lbl');
      }
    }
  }

  lemma MeetingLabels(name: string, lbl: string, name': string, lbl': string)
    requires IsLabel(lbl) && IsLabel(lbl') && Meets(name, lbl, name', lbl')
    ensures NewLabel(name, lbl) == NewLabel(name', lbl')
  {
    LabelIsLong(lbl');
    hide IsLabel;
    var rest := name'[|name| + 1..];
    assert name' == name + "_" + rest;
    assert ".L_sp_" + (name + "_" + rest) + "_" + lbl'[2..] == ".L_sp_" + name + "_" + (rest + "_" + lbl'[2..]);
  }

  lemma EqualLabelsMeet(name: string, lbl: string, name': string, lbl': string)
    requires IsLabel(lbl) && IsLabel(lbl') && NewLabel(name, lbl) == NewLabel(name', lbl') && |name| < |name'|
    ensures Meets(name, lbl, name', lbl')
  {
    LabelIsLong(lbl);
    LabelIsLong(lbl');
    hide IsLabel;
    var r := NewLabel(name, lbl);
    var k, k' := |name| + 7, |name'| + 6;
    assert name + "_" == r[6..k] && name' == r[6..k'];
    assert name'[..|name| + 1] == r[6..k];
    assert lbl[2..] == r[k..] && "_" + lbl'[2..] == r[k'..] && name'[|name| + 1..] == r[k..k'];
    assert r[k..] == r[k..k'] + r[k'..];
  }

  predicate Underscoreless(s: string) { '_' !in s }

  /** In particular they differ when the suffixes hold no underscore. */
  lemma NewLabelsDifferAcross(name: string, lbl: string, name': string, lbl': string)
    requires IsLabel(lbl) && IsLabel(lbl') && Underscoreless(lbl[2..]) && Underscoreless(lbl'[2..])
    requires NewLabel(name, lbl) == NewLabel(name', lbl')
    ensures name == name' && lbl == lbl'
  {
    NewLabelsMeetExactly(name, lbl, name', lbl');
    MeetingNeedsUnderscore(name, lbl, name', lbl');
    MeetingNeedsUnderscore(name', lbl', name, lbl);
    hide IsLabel, NewLabel, Meets;
  }

  lemma MeetingNeedsUnderscore(name: string, lbl: string, name': string, lbl': string)
    requires IsLabel(lbl) && IsLabel(lbl')
    ensures Meets(name, lbl, name', lbl') ==> !Underscoreless(lbl[2..])
  {
    if Meets(name, lbl, name', lbl') {
      assert lbl[2..][|name'| - |name| - 1] == '_';
    }
  }

  /** Labels of two functions can become one. */
  lemma NewLabelsCanMeet()
    ensures IsLabel(".Lb_c") && IsLabel(".Lc") && NewLabel("a", ".Lb_c") == NewLabel("a_b", ".Lc")
  {
    assert AllWord("Lb_c") && AllWord("Lc");
    assert ".Lb_c"[1..] == "Lb_c" && ".Lc"[1..] == "Lc";
    assert ".Lb_c"[2..] == "b_c" && ".Lc"[2..] == "c";
    assert "a_b"[2..] == "b" && "b" + "_" + "c" == "b_c";
    NewLabelsMeetExactly("a", ".Lb_c", "a_b", ".Lc");
  }

  // ----- One label after the other, or all at once -----

  ghost predicate LongestFirst(labels: seq<string>) {
    forall i, j :: 0 <= i < j < |labels| ==> |labels[i]| >= |labels[j]|
  }

  ghost predicate AllLabels(labels: seq<string>) { forall i :: 0 <= i < |labels| ==> IsLabel(labels[i]) }

  function SetOf(labels: seq<string>): set<string> { set l | l in labels }

  /** A text after the passes for these labels, in this order. */
  function RenameEach(s: string, prev: bool, name: string, labels: seq<string>): string
    requires AllLabels(labels)
  {
    if labels == [] then s
    else
      var l := labels[|labels| - 1];
      Rename(RenameEach(s, prev, name, labels[..|labels| - 1]), prev, map[l := NewLabel(name, l)])
  }

  lemma NoPass(s: string, prev: bool, name: string)
    ensures RenameEach(s, prev, name, []) == s
  {
  }

  /** The new label of no occurrence of t holds a label that a later pass replaces. */
  ghost predicate Settled(t: string, name: string, labels: seq<string>)
    requires AllLabels(labels)
  {
    forall i, j :: 0 <= i < j < |labels| && labels[i] == t ==> labels[j] !in Tokens(NewLabel(name, labels[i]), false)
  }

  ghost predicate SettledText(s: string, prev: bool, name: string, labels: seq<string>)
    requires AllLabels(labels)
  {
    forall t :: t in Tokens(s, prev) ==> Settled(t, name, labels)
  }

  lemma OnePassIsDotMap(name: string, l: string)
    requires IsLabel(l)
    ensures DotMap(map[l := NewLabel(name, l)]) && |NewLabel(name, l)| > |l|
  {
    NewLabelIsLabel(name, l);
  }

  lemma GeneratedIsDotMap(name: string, labels: set<string>)
    requires forall l :: l in labels ==> IsLabel(l)
    ensures DotMap(Generated(name, labels))
  {
    hide IsLabel, EndsInWord;
    forall l | l in labels ensures EndsInWord(NewLabel(name, l)) {
      NewLabelIsLabel(name, l);
    }
  }

  // ----- The passes, piece by piece -----

  lemma {:induction false} PassesSplit(v: string, s: string, prev: bool, name: string, labels: seq<string>)
    requires AllLabels(labels) && EndsOr(v, prev) && StopsWord(s)
    ensures RenameEach(v + s, prev, name, labels) == RenameEach(v, prev, name, labels) + RenameEach(s, true, name, labels)
    ensures EndsOr(RenameEach(v, prev, name, labels), prev) && StopsWord(RenameEach(s, true, name, labels))
    decreases |labels|
  {
    hide Rename, IsLabel, NewLabel, EndsOr, StopsWord, DotMap;
    if labels != [] {
      var front, l := labels[..|labels| - 1], labels[|labels| - 1];
      PassesSplit(v, s, prev, name, front);
      OnePassIsDotMap(name, l);
      var m := map[l := NewLabel(name, l)];
      RenameSplits(RenameEach(v, prev, name, front), RenameEach(s, true, name, front), prev, m);
      StillStops(RenameEach(s, true, name, front), true, m);
    }
  }

  lemma {:induction false} PassesCopy(s: string, prev: bool, name: string, labels: seq<string>)
    requires AllLabels(labels) && s != "" && !BeginsLabel(s, prev)
    ensures RenameEach(s, prev, name, labels) == [s[0]] + RenameEach(s[1..], IsWord(s[0]), name, labels)
    ensures !BeginsLabel([s[0]] + RenameEach(s[1..], IsWord(s[0]), name, labels), prev)
    decreases |labels|
  {
    hide Rename, IsLabel, NewLabel, DotMap, Token, IsWord;
    var tail := s[1..];
    if labels == [] {
      assert s == [s[0]] + tail;
    } else {
      var front, l := labels[..|labels| - 1], labels[|labels| - 1];
      PassesCopy(s, prev, name, front);
      OnePassIsDotMap(name, l);
      var m := map[l := NewLabel(name, l)];
      var x := RenameEach(tail, IsWord(s[0]), name, front);
      var r := [s[0]] + x;
      assert r[1..] == x;
      CopiesOther(r, prev, m, m);
      TokenIsKept(r, m);
    }
  }

  /** What the passes make of a label: itself, its new label, or something longer. */
  lemma {:induction false} PassesOfLabel(t: string, name: string, labels: seq<string>)
    requires AllLabels(labels) && IsLabel(t)
    ensures var r := RenameEach(t, false, name, labels);
      if t !in labels then r == t
      else if Settled(t, name, labels) then r == NewLabel(name, t)
      else |r| > |NewLabel(name, t)|
    decreases |labels|
  {
    hide Rename, IsLabel, NewLabel, DotMap;
    if labels != [] {
      var front, l := labels[..|labels| - 1], labels[|labels| - 1];
      assert labels == front + [l];
      PassesOfLabel(t, name, front);
      OnePassIsDotMap(name, l);
      var m := map[l := NewLabel(name, l)];
      var x := RenameEach(t, false, name, front);
      RenameGrows(x, false, l, NewLabel(name, l));
      SettledNext(t, name, front, l);
      if t !in front {
        LabelAlone(t, m);
      } else if l !in Tokens(x, false) {
        RenameKeeps(x, false, m);
      }
    }
  }

  lemma LabelAlone(t: string, m: map<string, string>)
    requires IsLabel(t)
    ensures Rename(t, false, m) == Image(m, t) && Tokens(t, false) == [t]
  {
    hide Rename, Tokens, IsLabel;
    assert t + "" == t;
    OneToken(t, "", m);
    RenameNothing(true, m);
    NoTokens(true);
  }

  lemma SettledNext(t: string, name: string, labels: seq<string>, l: string)
    requires AllLabels(labels) && IsLabel(l)
    ensures Settled(t, name, labels + [l]) <==>
      Settled(t, name, labels) && (t in labels ==> IsLabel(t) && l !in Tokens(NewLabel(name, t), false))
  {
    hide IsLabel, NewLabel, Tokens;
    var longer := labels + [l];
    if t in labels && Settled(t, name, longer) {
      var i :| 0 <= i < |labels| && labels[i] == t;
      assert longer[i] == t && longer[|labels|] == l;
    }
    if Settled(t, name, longer) {
      forall i, j | 0 <= i < j < |labels| && labels[i] == t ensures labels[j] !in Tokens(NewLabel(name, labels[i]), false) {
        assert longer[i] == t && longer[j] == labels[j];
      }
    }
  }

  /** The passes make a text no shorter than the simultaneous renaming, equal when the text is settled, and
      longer when it is not. */
  lemma {:induction false} PassesAgainstAtOnce(s: string, prev: bool, name: string, labels: seq<string>)
    requires AllLabels(labels)
    ensures var r, once := RenameEach(s, prev, name, labels), Rename(s, prev, Generated(name, SetOf(labels)));
      |r| >= |once| && if SettledText(s, prev, name, labels) then r == once else |r| > |once|
    decreases |s|
  {
    hide Rename, IsLabel, NewLabel, DotMap, Token, Settled, Generated, Tokens, StopsWord, RenameEach;
    var m := Generated(name, SetOf(labels));
    GeneratedIsDotMap(name, SetOf(labels));
    if s == "" {
      RenameNothing(prev, m);
      NoTokens(prev);
      PassesOfNothing(prev, name, labels);
    } else if BeginsLabel(s, prev) {
      var t := Token(s);
      SplitsToken(s);
      LabelIsLong(t);
      var rest := s[|t|..];
      PassesAgainstAtOnce(rest, true, name, labels);
      LabelEndsInWord(t);
      PassesSplit(t, rest, false, name, labels);
      PassesOfLabel(t, name, labels);
      OneToken(t, rest, m);
      ImageOfGenerated(name, labels, t);
    } else {
      PassesAgainstAtOnce(s[1..], IsWord(s[0]), name, labels);
      PassesCopy(s, prev, name, labels);
      CopiesOther(s, prev, m, m);
      FirstToken(s, prev);
      if Begins(s, prev) {
        NoLabelIsSettled(Token(s), name, labels);
      }
    }
  }

  lemma {:induction false} PassesOfNothing(prev: bool, name: string, labels: seq<string>)
    requires AllLabels(labels)
    ensures RenameEach("", prev, name, labels) == ""
    decreases |labels|
  {
    hide IsLabel, NewLabel;
    if labels != [] {
      PassesOfNothing(prev, name, labels[..|labels| - 1]);
    }
  }

  lemma ImageOfGenerated(name: string, labels: seq<string>, t: string)
    requires AllLabels(labels) && IsLabel(t)
    ensures Image(Generated(name, SetOf(labels)), t) == if t in labels then NewLabel(name, t) else t
    ensures t !in labels ==> Settled(t, name, labels)
  {
    hide IsLabel, NewLabel;
  }

  lemma NoLabelIsSettled(t: string, name: string, labels: seq<string>)
    requires AllLabels(labels) && !IsLabel(t)
    ensures Settled(t, name, labels)
  {
    hide IsLabel, NewLabel, Tokens;
  }

  /** The passes rename all labels of a line at once exactly when no new label that the line gets holds a
      label of a later pass. */
  lemma PassesAreSimultaneousExactly(line: string, name: string, labels: seq<string>)
    requires AllLabels(labels)
    ensures RenameEach(line, false, name, labels) == Rename(line, false, Generated(name, SetOf(labels))) <==>
      forall i, j :: 0 <= i < j < |labels| && labels[i] in Tokens(line, false) ==>
        labels[j] !in Tokens(NewLabel(name, labels[i]), false)
  {
    hide Rename, IsLabel, NewLabel, Generated, Tokens, RenameEach;
    PassesAgainstAtOnce(line, false, name, labels);
    if SettledText(line, false, name, labels) {
      forall i, j | 0 <= i < j < |labels| && labels[i] in Tokens(line, false)
        ensures labels[j] !in Tokens(NewLabel(name, labels[i]), false)
      {
        assert Settled(labels[i], name, labels);
      }
    }
  }

  /** No new label holds a label of a later pass. */
  ghost predicate NoneHoldsLater(name: string, labels: seq<string>)
    requires AllLabels(labels)
  {
    forall i, j :: 0 <= i < j < |labels| ==> labels[j] !in Tokens(NewLabel(name, labels[i]), false)
  }

  /** The passes rename all labels at once on every line exactly when no new label holds a label of a later
      pass. */
  lemma AlwaysSimultaneousExactly(name: string, labels: seq<string>)
    requires AllLabels(labels)
    ensures (forall line :: RenameEach(line, false, name, labels) == Rename(line, false, Generated(name, SetOf(labels))))
            <==> NoneHoldsLater(name, labels)
  {
    hide Rename, IsLabel, NewLabel, Generated, Tokens, RenameEach;
    if NoneHoldsLater(name, labels) {
      forall line ensures RenameEach(line, false, name, labels) == Rename(line, false, Generated(name, SetOf(labels))) {
        PassesAreSimultaneousExactly(line, name, labels);
      }
    } else {
      var i, j :| 0 <= i < j < |labels| && labels[j] in Tokens(NewLabel(name, labels[i]), false);
      PassesAreSimultaneousExactly(labels[i], name, labels);
      LabelAlone(labels[i], map[]);
    }
  }

  /** Longest labels first and a name of word characters meet the condition. */
  lemma PassesAreSimultaneous(line: string, name: string, labels: seq<string>)
    requires AllWord(name) && AllLabels(labels) && LongestFirst(labels)
    ensures NoneHoldsLater(name, labels)
    ensures RenameEach(line, false, name, labels) == Rename(line, false, Generated(name, SetOf(labels)))
  {
    hide Rename, IsLabel, AllWord, NewLabel, Generated, Tokens, RenameEach;
    forall i, j | 0 <= i < j < |labels| ensures labels[j] !in Tokens(NewLabel(name, labels[i]), false) {
      NewLabelIsLabel(name, labels[i]);
      LabelAlone(NewLabel(name, labels[i]), map[]);
    }
    AlwaysSimultaneousExactly(name, labels);
  }

  /** A name for which they do not. */
  lemma NameMustBeWord()
    ensures IsLabel(".L1") && IsLabel(".L2") && !NoneHoldsLater("$.L2$", [".L1", ".L2"])
    ensures RenameEach(".L1", false, "$.L2$", [".L1", ".L2"])
         != Rename(".L1", false, Generated("$.L2$", SetOf([".L1", ".L2"])))
  {
    hide Rename, Generated, Tokens, RenameEach, Token;
    var name, labels := "$.L2$", [".L1", ".L2"];
    assert ".L1"[1..] == "L1" && ".L2"[1..] == "L2" && AllWord("L1") && AllWord("L2");
    assert ".L1"[2..] == "1";
    var x := NewLabel(name, ".L1");
    assert x == ".L_sp_$" + ".L2$_1";
    assert ".L2$_1" == ".L2" + "$_1";
    TokenFirst(".L2", "$_1", map[]);
    TokensSplitAt(".L_sp_$", ".L2$_1", false);
    assert labels[0] == ".L1" && labels[1] == ".L2" && NewLabel(name, labels[0]) == x;
    assert labels[1] in Tokens(NewLabel(name, labels[0]), false);
    PassesAreSimultaneousExactly(".L1", name, labels);
    LabelAlone(".L1", map[]);
  }

  lemma {:induction false} TokensSplitAt(v: string, s: string, prev: bool)
    requires v != "" && !IsWord(v[|v| - 1])
    ensures forall t :: t in Tokens(s, false) ==> t in Tokens(v + s, prev)
    decreases |v|
  {
    hide Token, IsWord;
    assert (v + s)[1..] == v[1..] + s && (v + s)[0] == v[0];
    FirstToken(v + s, prev);
    if |v| == 1 {
      assert v[1..] + s == s;
    } else {
      TokensSplitAt(v[1..], s, IsWord(v[0]));
    }
  }

  // ----- Renaming the labels of a function -----

  ghost function LabelsOf(lines: seq<string>): (r: set<string>)
    ensures forall l :: l in r ==> IsLabel(l)
  {
    set i | 0 <= i < |lines| && DefinedLabel(lines[i]).Some? :: DefinedLabel(lines[i]).value
  }

  /** Puts a label where its length belongs. */
  method InsertByLength(labels: seq<string>, l: string) returns (r: seq<string>)
    requires AllLabels(labels) && LongestFirst(labels) && IsLabel(l)
    ensures AllLabels(r) && LongestFirst(r) && SetOf(r) == SetOf(labels) + {l}
  {
    hide IsLabel, SetOf;
    var k := |labels|;
    while k > 0 && |labels[k - 1]| < |l|
      invariant 0 <= k <= |labels|
      invariant forall i :: k <= i < |labels| ==> |labels[i]| < |l|
    {
      k := k - 1;
    }
    r := labels[..k] + [l] + labels[k..];
    InsertedLabel(labels, k, l);
    InsertedSet(labels, k, l);
  }

  lemma InsertedSet(labels: seq<string>, k: nat, l: string)
    requires k <= |labels|
    ensures SetOf(labels[..k] + [l] + labels[k..]) == SetOf(labels) + {l}
  {
    var r := labels[..k] + [l] + labels[k..];
    assert labels == labels[..k] + labels[k..];
    forall x ensures x in SetOf(r) <==> x in SetOf(labels) + {l} {
      assert x in r <==> x in labels || x == l;
    }
  }

  lemma InsertedLabel(labels: seq<string>, k: nat, l: string)
    requires AllLabels(labels) && LongestFirst(labels) && IsLabel(l) && k <= |labels|
    requires k > 0 ==> |labels[k - 1]| >= |l|
    requires forall i :: k <= i < |labels| ==> |labels[i]| < |l|
    ensures AllLabels(labels[..k] + [l] + labels[k..]) && LongestFirst(labels[..k] + [l] + labels[k..])
  {
    hide IsLabel;
    var r := labels[..k] + [l] + labels[k..];
    forall i, j | 0 <= i < j < |r| ensures |r[i]| >= |r[j]| {
      assert r[i] == if i < k then labels[i] else if i == k then l else labels[i - 1];
      assert r[j] == if j < k then labels[j] else if j == k then l else labels[j - 1];
    }
  }

  lemma LabelsOfNext(lines: seq<string>, i: nat)
    requires i < |lines|
    ensures LabelsOf(lines[..i + 1]) ==
            LabelsOf(lines[..i]) + (if DefinedLabel(lines[i]).Some? then {DefinedLabel(lines[i]).value} else {})
  {
    hide DefinedLabel, IsLabel;
    var shorter, longer := LabelsOf(lines[..i]), LabelsOf(lines[..i + 1]);
    forall l | l in longer
      ensures l in shorter || DefinedLabel(lines[i]) == Some(l)
    {
      var k :| 0 <= k < i + 1 && DefinedLabel(lines[..i + 1][k]) == Some(l);
      assert k < i ==> lines[..i][k] == lines[k];
    }
    forall l | l in shorter ensures l in longer {
      var k :| 0 <= k < i && DefinedLabel(lines[..i][k]) == Some(l);
      assert lines[..i + 1][k] == lines[k];
    }
    assert lines[..i + 1][i] == lines[i];
  }

  /** The labels that the lines define, longest first. */
  method SortedLabels(lines: seq<string>) returns (labels: seq<string>)
    ensures AllLabels(labels) && LongestFirst(labels) && SetOf(labels) == LabelsOf(lines)
  {
    hide IsLabel, LabelsOf, DefinedLabel;
    labels := [];
    assert LabelsOf(lines[..0]) == {} by { NoLabelsOf(lines[..0]); }
    for i := 0 to |lines|
      invariant AllLabels(labels) && LongestFirst(labels) && SetOf(labels) == LabelsOf(lines[..i])
    {
      LabelsOfNext(lines, i);
      var l := DefinedLabel(lines[i]);
      if l.Some? {
        labels := InsertByLength(labels, l.value);
      }
    }
    assert lines[..|lines|] == lines;
  }

  lemma NoLabelsOf(lines: seq<string>)
    requires lines == []
    ensures LabelsOf(lines) == {}
  {
  }

  /** Every line with every label of the function renamed at once. */
  ghost function Renamed(name: string, lines: seq<string>): (r: seq<string>)
    ensures |r| == |lines|
  {
    seq(|lines|, i requires 0 <= i < |lines| => Rename(lines[i], false, Generated(name, LabelsOf(lines))))
  }

  /** labels lists the labels that the lines define, longest first, and r holds the lines after a pass for
      each. */
  ghost predicate InPasses(name: string, lines: seq<string>, labels: seq<string>, r: seq<string>) {
    && AllLabels(labels) && LongestFirst(labels) && SetOf(labels) == LabelsOf(lines)
    && |r| == |lines| && forall i :: 0 <= i < |lines| ==> r[i] == RenameEach(lines[i], false, name, labels)
  }

  ghost predicate RenamedInPasses(name: string, lines: seq<string>, r: seq<string>) {
    exists labels :: InPasses(name, lines, labels, r)
  }

  /** No new label that some line gets holds a label of a later pass. */
  ghost predicate LinesSettled(name: string, lines: seq<string>, labels: seq<string>)
    requires AllLabels(labels)
  {
    forall k :: 0 <= k < |lines| ==> SettledText(lines[k], false, name, labels)
  }

  /** The passes rename all labels of all lines at once exactly when the lines are settled. */
  lemma InPassesIsAtOnceExactly(name: string, lines: seq<string>, labels: seq<string>, r: seq<string>)
    requires InPasses(name, lines, labels, r)
    ensures r == Renamed(name, lines) <==> LinesSettled(name, lines, labels)
  {
    hide IsLabel, Rename, RenameEach, LabelsOf, Generated, LongestFirst, SettledText;
    forall i | 0 <= i < |lines|
      ensures r[i] == Renamed(name, lines)[i] <==> SettledText(lines[i], false, name, labels)
    {
      PassesAgainstAtOnce(lines[i], false, name, labels);
    }
  }

  /** For a name of word characters that is so whatever the order among labels of one length. */
  lemma InPassesIsAtOnce(name: string, lines: seq<string>, r: seq<string>)
    requires AllWord(name) && RenamedInPasses(name, lines, r)
    ensures r == Renamed(name, lines)
  {
    hide IsLabel, AllWord, Rename, RenameEach, LabelsOf, Generated, LongestFirst;
    var labels :| InPasses(name, lines, labels, r);
    forall i | 0 <= i < |lines| ensures r[i] == Renamed(name, lines)[i] {
      PassesAreSimultaneous(lines[i], name, labels);
    }
  }

  method RenameLabels(name: string, lines: seq<string>) returns (r: seq<string>)
    ensures RenamedInPasses(name, lines, r)
  {
    hide IsLabel, AllWord, NewLabel, Rename, RenameEach, LabelsOf, Generated, LongestFirst;
    var labels := SortedLabels(lines);
    r := lines;
    assert forall i :: 0 <= i < |lines| ==> r[i] == RenameEach(lines[i], false, name, []) by {
      forall i | 0 <= i < |lines| ensures r[i] == RenameEach(lines[i], false, name, []) {
        NoPass(lines[i], false, name);
      }
    }
    for k := 0 to |labels|
      invariant |r| == |lines|
      invariant forall i :: 0 <= i < |lines| ==> r[i] == RenameEach(lines[i], false, name, labels[..k])
    {
      var l := labels[k];
      NewLabelIsLabel(name, l);
      for j := 0 to |lines|
        invariant |r| == |lines|
        invariant forall i :: 0 <= i < j ==> r[i] == RenameEach(lines[i], false, name, labels[..k + 1])
        invariant forall i :: j <= i < |lines| ==> r[i] == RenameEach(lines[i], false, name, labels[..k])
      {
        NextPass(lines[j], name, labels, k);
        var line := ReplaceWordToken(r[j], l, NewLabel(name, l));
        r := r[j := line];
      }
    }
    assert labels[..|labels|] == labels;
    assert InPasses(name, lines, labels, r);
  }

  lemma NextPass(line: string, name: string, labels: seq<string>, k: nat)
    requires AllLabels(labels) && k < |labels|
    ensures IsLabel(labels[k])
    ensures RenameEach(line, false, name, labels[..k + 1])
         == Rename(RenameEach(line, false, name, labels[..k]), false, map[labels[k] := NewLabel(name, labels[k])])
  {
    hide IsLabel, NewLabel, Rename;
    assert labels[..k + 1][..k] == labels[..k];
  }

  /** A line renamed at once holds no old label exactly when no label that it held has a new label that
      holds one. */
  lemma OldLabelsAreGoneExactly(name: string, lines: seq<string>, i: nat)
    requires i < |lines|
    ensures (forall t :: t in Tokens(Renamed(name, lines)[i], false) ==> t !in LabelsOf(lines)) <==>
      forall l, t :: l in LabelsOf(lines) && l in Tokens(lines[i], false) && t in Tokens(NewLabel(name, l), false) ==>
        t !in LabelsOf(lines)
  {
    hide IsLabel, Rename, Tokens, LabelsOf, NewLabel, DotMap;
    var m := Generated(name, LabelsOf(lines));
    GeneratedIsDotMap(name, LabelsOf(lines));
    forall t ensures t in Tokens(Renamed(name, lines)[i], false) <==>
      exists u :: u in Tokens(lines[i], false) && t in (if u in m then Tokens(m[u], false) else [u])
    {
      RenamedTokens(lines[i], false, m, t);
    }
  }

  /** What the pass for label l makes of token v. */
  function Pass(v: string, name: string, l: string): seq<string>
    requires IsLabel(l)
  {
    if v == l then Tokens(NewLabel(name, l), false) else [v]
  }

  /** Token t is among what the passes make of token u: each pass splits its own label into the tokens of the
      new one, and leaves every other token. */
  ghost predicate Becomes(u: string, t: string, name: string, labels: seq<string>)
    requires AllLabels(labels)
    decreases |labels|
  {
    if labels == [] then t == u
    else
      var front, l := labels[..|labels| - 1], labels[|labels| - 1];
      exists v :: Becomes(u, v, name, front) && t in Pass(v, name, l)
  }

  lemma PassTokens(s: string, prev: bool, name: string, l: string, t: string)
    requires IsLabel(l)
    ensures t in Tokens(Rename(s, prev, map[l := NewLabel(name, l)]), prev) <==>
              exists v :: v in Tokens(s, prev) && t in Pass(v, name, l)
  {
    hide IsLabel, Rename, Tokens, NewLabel, DotMap;
    OnePassIsDotMap(name, l);
    var m := map[l := NewLabel(name, l)];
    RenamedTokens(s, prev, m, t);
    assert forall v :: Pass(v, name, l) == if v in m then Tokens(m[v], false) else [v];
  }

  /** The tokens after the passes are what the tokens of the text become. */
  lemma {:induction false} PassesTokens(s: string, prev: bool, name: string, labels: seq<string>, t: string)
    requires AllLabels(labels)
    ensures t in Tokens(RenameEach(s, prev, name, labels), prev) <==>
              exists u :: u in Tokens(s, prev) && Becomes(u, t, name, labels)
    decreases |labels|
  {
    hide IsLabel, Rename, Tokens, NewLabel, Pass;
    if labels == [] {
      NoPass(s, prev, name);
      if t in Tokens(s, prev) {
        assert Becomes(t, t, name, labels);
      }
    } else {
      var front, l := labels[..|labels| - 1], labels[|labels| - 1];
      var x := RenameEach(s, prev, name, front);
      PassTokens(x, prev, name, l, t);
      if t in Tokens(RenameEach(s, prev, name, labels), prev) {
        var v :| v in Tokens(x, prev) && t in Pass(v, name, l);
        PassesTokens(s, prev, name, front, v);
        var u :| u in Tokens(s, prev) && Becomes(u, v, name, front);
        assert Becomes(u, t, name, labels);
      }
      if u :| u in Tokens(s, prev) && Becomes(u, t, name, labels) {
        var v :| Becomes(u, v, name, front) && t in Pass(v, name, l);
        PassesTokens(s, prev, name, front, v);
      }
    }
  }

  lemma {:induction false} OthersStay(u: string, t: string, name: string, labels: seq<string>)
    requires AllLabels(labels) && u !in labels
    ensures Becomes(u, t, name, labels) <==> t == u
    decreases |labels|
  {
    hide IsLabel, Tokens, NewLabel;
    if labels != [] {
      var front, l := labels[..|labels| - 1], labels[|labels| - 1];
      OthersStay(u, u, name, front);
      assert u in Pass(u, name, l);
      if Becomes(u, t, name, labels) {
        var v :| Becomes(u, v, name, front) && t in Pass(v, name, l);
        OthersStay(u, v, name, front);
      }
    }
  }

  /** A line after the passes holds no old label exactly when no label that it held becomes one. */
  lemma OldLabelsAreGoneAsRun(name: string, lines: seq<string>, labels: seq<string>, r: seq<string>, i: nat)
    requires InPasses(name, lines, labels, r) && i < |lines|
    ensures (forall t :: t in Tokens(r[i], false) ==> t !in LabelsOf(lines)) <==>
      forall l, t :: l in LabelsOf(lines) && l in Tokens(lines[i], false) && Becomes(l, t, name, labels) ==>
        t !in LabelsOf(lines)
  {
    hide IsLabel, Rename, RenameEach, Tokens, LabelsOf, LongestFirst, Becomes;
    forall t ensures t in Tokens(r[i], false) <==>
      exists u :: u in Tokens(lines[i], false) && Becomes(u, t, name, labels)
    {
      PassesTokens(lines[i], false, name, labels, t);
    }
    forall u, t | u !in LabelsOf(lines) && Becomes(u, t, name, labels) ensures t == u {
      assert u !in SetOf(labels);
      OthersStay(u, t, name, labels);
    }
  }

  /** That is so when no old label looks generated and the name consists of word characters; then every token
      is mapped, one by one. */
  lemma OldLabelsAreGone(name: string, lines: seq<string>, i: nat)
    requires AllWord(name) && i < |lines|
    requires forall l :: l in LabelsOf(lines) ==> !StartsWith(l, ".L_sp_")
    ensures forall t :: t in Tokens(Renamed(name, lines)[i], false) ==> t !in LabelsOf(lines)
    ensures Tokens(Renamed(name, lines)[i], false)
         == Images(Generated(name, LabelsOf(lines)), Tokens(lines[i], false))
  {
    hide IsLabel, Rename, Tokens, AllWord, LabelsOf;
    var m := Generated(name, LabelsOf(lines));
    forall l | l in m ensures StartsWith(m[l], ".L_sp_") && IsLabel(m[l]) {
      assert m[l][..6] == ".L_sp_";
      NewLabelIsLabel(name, l);
    }
    hide Generated, StartsWith;
    NoOldTokenIsLeft(lines[i], false, m);
    TokensAreMapped(lines[i], false, m);
  }
}
