/** Renaming local labels in assembly text: the token replacement of core/assembly_aligner.cc. */
module LabelRenaming {
  import opened Strings
  import opened Wrappers

  // ----- Tokens -----

  predicate IsWord(c: char) { 'a' <= c <= 'z' || 'A' <= c <= 'Z' || '0' <= c <= '9' || c == '_' }

  predicate AllWord(s: string) { forall i :: 0 <= i < |s| ==> IsWord(s[i]) }

  /** A local label: ".L" and word characters. */
  predicate IsLabel(s: string) { |s| >= 2 && s[0] == '.' && s[1] == 'L' && AllWord(s[1..]) }

  /** How many word characters lead the text. */
  function WordRun(s: string): (n: nat)
    ensures n <= |s| && AllWord(s[..n]) && (n == |s| || !IsWord(s[n]))
  {
    if s == "" || !IsWord(s[0]) then 0
    else
      var n := WordRun(s[1..]);
      assert forall i :: 1 <= i < n + 1 ==> s[i] == s[1..][..n][i - 1];
      n + 1
  }

  /** The token that the first character begins: that character and the word characters after it. */
  function Token(s: string): string
    requires s != ""
  {
    s[..1 + WordRun(s[1..])]
  }

  /** Whether a token may begin here, given the character before. */
  predicate Begins(s: string, prev: bool) { s != "" && s[0] == '.' && !prev }

  lemma {:induction false} RunIs(s: string, n: nat)
    requires n <= |s| && AllWord(s[..n]) && (n == |s| || !IsWord(s[n]))
    ensures WordRun(s) == n
  {
    hide IsWord;
    if n > 0 {
      var w := s[..n];
      assert s[0] == w[0] && s[1..][..n - 1] == w[1..];
      assert forall i :: 0 <= i < n - 1 ==> w[1..][i] == w[i + 1];
      RunIs(s[1..], n - 1);
    }
  }

  lemma TokenIs(s: string, t: string)
    requires s != "" && t != "" && t <= s && AllWord(t[1..]) && (|s| == |t| || !IsWord(s[|t|]))
    ensures Token(s) == t
  {
    var n := |t| - 1;
    assert s[1..][..n] == t[1..];
    if |s| > |t| {
      assert s[1..][n] == s[|t|];
    }
    RunIs(s[1..], n);
  }

  // ----- Renaming every token at once -----

  ghost predicate LabelMap(m: map<string, string>) {
    forall t :: t in m ==> IsLabel(t) && IsLabel(m[t])
  }

  /** A renaming of labels to texts that begin with a dot and end in a word character. */
  ghost predicate DotMap(m: map<string, string>) {
    forall t :: t in m ==> IsLabel(t) && m[t] != "" && m[t][0] == '.' && EndsInWord(m[t])
  }

  predicate EndsInWord(s: string) { s != "" && IsWord(s[|s| - 1]) }

  lemma LabelEndsInWord(t: string)
    requires IsLabel(t)
    ensures EndsInWord(t)
  {
    assert t[|t| - 1] == t[1..][|t| - 2];
  }

  lemma LabelMapIsDotMap(m: map<string, string>)
    requires LabelMap(m)
    ensures DotMap(m)
  {
    hide EndsInWord;
    forall t | t in m ensures EndsInWord(m[t]) {
      LabelEndsInWord(m[t]);
    }
  }

  function Image(m: map<string, string>, t: string): string { if t in m then m[t] else t }

  /** Every whole token that the map knows, replaced at the same time. */
  function Rename(s: string, prev: bool, m: map<string, string>): string
    decreases |s|
  {
    if s == "" then ""
    else if Begins(s, prev) && Token(s) in m then m[Token(s)] + Rename(s[|Token(s)|..], true, m)
    else [s[0]] + Rename(s[1..], IsWord(s[0]), m)
  }

  /** The tokens of a text, in order. */
  function Tokens(s: string, prev: bool): seq<string>
    decreases |s|
  {
    if s == "" then []
    else (if Begins(s, prev) then [Token(s)] else []) + Tokens(s[1..], IsWord(s[0]))
  }

  function Images(m: map<string, string>, ts: seq<string>): (r: seq<string>)
    ensures |r| == |ts|
  {
    seq(|ts|, i requires 0 <= i < |ts| => Image(m, ts[i]))
  }

  // ----- Word characters are only copied -----

  predicate StopsWord(s: string) { s == "" || !IsWord(s[0]) }

  lemma {:induction false} CopiesWord(w: string, s: string, prev: bool, m: map<string, string>)
    requires AllWord(w)
    ensures Rename(w + s, prev, m) == w + Rename(s, if w == "" then prev else true, m)
    ensures Tokens(w + s, prev) == Tokens(s, if w == "" then prev else true)
    decreases |w|
  {
    if w == "" {
      assert w + s == s;
    } else {
      assert IsWord(w[0]);
      assert (w + s)[1..] == w[1..] + s;
      assert forall i :: 0 <= i < |w[1..]| ==> w[1..][i] == w[i + 1];
      CopiesWord(w[1..], s, true, m);
    }
  }

  lemma CopiesFirst(s: string, prev: bool, m: map<string, string>)
    requires s != "" && !(Begins(s, prev) && Token(s) in m)
    ensures Rename(s, prev, m) == [s[0]] + Rename(s[1..], IsWord(s[0]), m)
  {
  }

  lemma RenamesFirst(s: string, prev: bool, m: map<string, string>)
    requires Begins(s, prev) && Token(s) in m
    ensures |Token(s)| <= |s| && Rename(s, prev, m) == m[Token(s)] + Rename(s[|Token(s)|..], true, m)
  {
  }

  /** A token that is not renamed is copied whole. */
  lemma CopiesToken(t: string, s: string, m: map<string, string>)
    requires IsLabel(t) && StopsWord(s) && t !in m
    ensures Rename(t + s, false, m) == t + Rename(s, true, m)
  {
    hide Rename, Tokens, Begins, Token;
    TokenIs(t + s, t);
    CopiesFirst(t + s, false, m);
    assert (t + s)[1..] == t[1..] + s;
    CopiesWord(t[1..], s, false, m);
  }

  /** A token that is renamed. */
  lemma ReplacesToken(t: string, s: string, m: map<string, string>)
    requires IsLabel(t) && StopsWord(s) && t in m
    ensures Rename(t + s, false, m) == m[t] + Rename(s, true, m)
  {
    TokenIs(t + s, t);
    assert (t + s)[|t|..] == s;
  }

  lemma OneToken(t: string, s: string, m: map<string, string>)
    requires IsLabel(t) && StopsWord(s)
    ensures Rename(t + s, false, m) == Image(m, t) + Rename(s, true, m)
    ensures Tokens(t + s, false) == [t] + Tokens(s, true)
  {
    hide Rename, Tokens, Token;
    if t in m {
      ReplacesToken(t, s, m);
    } else {
      CopiesToken(t, s, m);
    }
    TokenFirst(t, s, m);
  }

  lemma TokenFirst(t: string, s: string, m: map<string, string>)
    requires IsLabel(t) && StopsWord(s)
    ensures Tokens(t + s, false) == [t] + Tokens(s, true)
  {
    hide Token;
    TokenIs(t + s, t);
    assert (t + s)[1..] == t[1..] + s;
    CopiesWord(t[1..], s, false, m);
  }

  /** Renaming keeps the word characters that lead a text, and what stops them. */
  lemma {:induction false} RunIsKept(s: string, prev: bool, m: map<string, string>)
    requires DotMap(m)
    ensures WordRun(Rename(s, prev, m)) == WordRun(s) <= |Rename(s, prev, m)|
    ensures Rename(s, prev, m)[..WordRun(s)] == s[..WordRun(s)]
  {
    var n := WordRun(s);
    var w, rest := s[..n], s[n..];
    assert s == w + rest;
    CopiesWord(w, rest, prev, m);
    var r := Rename(rest, if w == "" then prev else true, m);
    assert r == "" || !IsWord(r[0]) by {
      if rest != "" {
        assert !IsWord(rest[0]);
        if Begins(rest, if w == "" then prev else true) && Token(rest) in m {
          assert m[Token(rest)][0] == '.';
        }
      }
    }
    assert (w + r)[..n] == w;
    if r != "" {
      assert (w + r)[n] == r[0];
    }
    RunIs(w + r, n);
  }

  // ----- Composing and undoing -----

  predicate BeginsLabel(s: string, prev: bool) { Begins(s, prev) && IsLabel(Token(s)) }

  lemma SplitsToken(s: string)
    requires s != "" && IsLabel(Token(s))
    ensures |Token(s)| <= |s| && s == Token(s) + s[|Token(s)|..] && StopsWord(s[|Token(s)|..])
  {
  }

  /** Away from labels, a character is copied by every renaming. */
  lemma CopiesOther(s: string, prev: bool, m: map<string, string>, m': map<string, string>)
    requires DotMap(m) && DotMap(m') && s != "" && !BeginsLabel(s, prev)
    ensures Rename(s, prev, m) == [s[0]] + Rename(s[1..], IsWord(s[0]), m)
    ensures Rename(Rename(s, prev, m), prev, m') == [s[0]] + Rename(Rename(s[1..], IsWord(s[0]), m), IsWord(s[0]), m')
  {
    hide Rename, IsLabel, Token, DotMap;
    NotRenamed(s, prev, m);
    CopiesFirst(s, prev, m);
    var tail := Rename(s[1..], IsWord(s[0]), m);
    TokenIsKept(s, m);
    var r := [s[0]] + tail;
    assert r[1..] == tail;
    NotRenamed(r, prev, m');
    CopiesFirst(r, prev, m');
  }

  lemma NotRenamed(s: string, prev: bool, m: map<string, string>)
    requires DotMap(m) && s != "" && !BeginsLabel(s, prev)
    ensures !(Begins(s, prev) && Token(s) in m)
  {
  }

  lemma TokenIsKept(s: string, m: map<string, string>)
    requires DotMap(m) && s != ""
    ensures Token([s[0]] + Rename(s[1..], IsWord(s[0]), m)) == Token(s)
  {
    hide Rename, IsLabel;
    var tail := Rename(s[1..], IsWord(s[0]), m);
    var r := [s[0]] + tail;
    RunIsKept(s[1..], IsWord(s[0]), m);
    var n := WordRun(s[1..]);
    assert r[1..] == tail;
    assert r[..1 + n] == [s[0]] + tail[..n] && s[..1 + n] == [s[0]] + s[1..][..n];
  }

  function Compose(m: map<string, string>, m': map<string, string>): map<string, string> {
    map t | t in m.Keys + m'.Keys :: Image(m', Image(m, t))
  }

  lemma ComposeIs(m: map<string, string>, m': map<string, string>)
    requires LabelMap(m) && LabelMap(m')
    ensures LabelMap(Compose(m, m'))
    ensures forall t :: Image(Compose(m, m'), t) == Image(m', Image(m, t))
  {
    hide IsLabel;
  }

  /** Renaming twice is renaming once, by the composition. */
  lemma {:induction false} RenameComposes(s: string, prev: bool, m: map<string, string>, m': map<string, string>)
    requires LabelMap(m) && LabelMap(m')
    ensures Rename(Rename(s, prev, m), prev, m') == Rename(s, prev, Compose(m, m'))
    decreases |s|
  {
    hide Rename, IsLabel, Compose, LabelMap, DotMap, Token, StopsWord;
    ComposeIs(m, m');
    var both := Compose(m, m');
    LabelMapIsDotMap(m);
    LabelMapIsDotMap(m');
    LabelMapIsDotMap(Compose(m, m'));
    if s == "" {
      RenameNothing(prev, m);
      RenameNothing(prev, m');
      RenameNothing(prev, both);
    } else if BeginsLabel(s, prev) {
      var t := Token(s);
      SplitsToken(s);
      var rest := s[|t|..];
      ImageIsLabel(m, t);
      LabelIsLong(t);
      RenameComposes(rest, true, m, m');
      OneToken(t, rest, m);
      OneToken(t, rest, both);
      StillStops(rest, true, m);
      OneToken(Image(m, t), Rename(rest, true, m), m');
    } else {
      RenameComposes(s[1..], IsWord(s[0]), m, m');
      CopiesOther(s, prev, m, m');
      CopiesOther(s, prev, both, both);
    }
  }

  lemma RenameNothing(prev: bool, m: map<string, string>)
    ensures Rename("", prev, m) == ""
  {
  }

  lemma LabelIsLong(t: string)
    requires IsLabel(t)
    ensures |t| >= 2
  {
  }

  lemma ImageIsLabel(m: map<string, string>, t: string)
    requires LabelMap(m) && IsLabel(t)
    ensures IsLabel(Image(m, t))
  {
  }

  lemma StillStops(s: string, prev: bool, m: map<string, string>)
    requires DotMap(m) && StopsWord(s)
    ensures StopsWord(Rename(s, prev, m))
  {
    RunIsKept(s, prev, m);
  }

  /** Every token is mapped, and no other token appears. */
  lemma {:induction false} TokensAreMapped(s: string, prev: bool, m: map<string, string>)
    requires LabelMap(m)
    ensures Tokens(Rename(s, prev, m), prev) == Images(m, Tokens(s, prev))
    decreases |s|
  {
    hide Rename, Tokens, IsLabel, LabelMap, DotMap, Token, StopsWord;
    LabelMapIsDotMap(m);
    if s == "" {
      RenameNothing(prev, m);
      NoTokens(prev);
    } else if BeginsLabel(s, prev) {
      var t := Token(s);
      SplitsToken(s);
      var rest := s[|t|..];
      ImageIsLabel(m, t);
      LabelIsLong(t);
      TokensAreMapped(rest, true, m);
      OneToken(t, rest, m);
      StillStops(rest, true, m);
      OneToken(Image(m, t), Rename(rest, true, m), m);
    } else {
      TokensAreMapped(s[1..], IsWord(s[0]), m);
      CopiesOther(s, prev, m, m);
      var tail := Rename(s[1..], IsWord(s[0]), m);
      TokenIsKept(s, m);
      FirstToken(s, prev);
      FirstToken([s[0]] + tail, prev);
      assert ([s[0]] + tail)[1..] == tail;
      if Begins(s, prev) {
        NotRenamed(s, prev, m);
      }
    }
  }

  lemma NoTokens(prev: bool)
    ensures Tokens("", prev) == []
  {
  }

  lemma FirstToken(s: string, prev: bool)
    requires s != ""
    ensures Tokens(s, prev) == (if Begins(s, prev) then [Token(s)] else []) + Tokens(s[1..], IsWord(s[0]))
  {
  }

  /** When no new label is an old one, no old label is left. */
  lemma NoOldTokenIsLeft(s: string, prev: bool, m: map<string, string>)
    requires LabelMap(m) && forall t :: t in m ==> m[t] !in m
    ensures forall t :: t in Tokens(Rename(s, prev, m), prev) ==> t !in m
  {
    hide Rename, Tokens, LabelMap;
    TokensAreMapped(s, prev, m);
  }

  /** A renaming that keeps every token of a text keeps the text. */
  lemma {:induction false} RenameKeeps(s: string, prev: bool, m: map<string, string>)
    requires DotMap(m) && forall t :: t in Tokens(s, prev) ==> Image(m, t) == t
    ensures Rename(s, prev, m) == s
    decreases |s|
  {
    hide Rename, Tokens, IsLabel, DotMap, Token, StopsWord;
    if s == "" {
      RenameNothing(prev, m);
    } else if BeginsLabel(s, prev) {
      var t := Token(s);
      SplitsToken(s);
      LabelIsLong(t);
      OneToken(t, s[|t|..], m);
      assert t in Tokens(s, prev);
      RenameKeeps(s[|t|..], true, m);
    } else {
      CopiesOther(s, prev, m, m);
      FirstToken(s, prev);
      RenameKeeps(s[1..], IsWord(s[0]), m);
    }
  }

  /** An injective renaming to labels that the text does not hold is undone by its inverse. */
  lemma RenamingIsUndone(s: string, m: map<string, string>, back: map<string, string>)
    requires LabelMap(m) && LabelMap(back)
    requires forall t :: t in m ==> m[t] in back && back[m[t]] == t
    requires forall t :: t in Tokens(s, false) && t in back ==> t in m
    ensures Rename(Rename(s, false, m), false, back) == s
  {
    hide Rename, Tokens, LabelMap, Compose;
    RenameComposes(s, false, m, back);
    ComposeIs(m, back);
    LabelMapIsDotMap(Compose(m, back));
    RenameKeeps(s, false, Compose(m, back));
  }

  // ----- Texts end to end -----

  /** What a text leaves before whatever follows it. */
  predicate EndsOr(v: string, prev: bool) { if v == "" then prev else EndsInWord(v) }

  lemma TokenOfFront(v: string, s: string)
    requires v != "" && StopsWord(s)
    ensures Token(v + s) == Token(v) && |Token(v)| <= |v|
    ensures v[|Token(v)|..] != "" ==> !IsWord(v[|Token(v)|])
  {
    var n := WordRun(v[1..]);
    var w := (v + s)[1..];
    assert w == v[1..] + s && w[..n] == v[1..][..n];
    RunIs(w, n);
  }

  lemma RestEndsInWord(v: string, k: nat)
    requires EndsInWord(v) && k <= |v|
    ensures EndsOr(v[k..], true)
    ensures k == 1 ==> EndsOr(v[k..], IsWord(v[0]))
  {
  }

  lemma TokenIsDropped(v: string, s: string)
    requires v != "" && StopsWord(s)
    ensures |Token(v)| <= |v| && (v + s)[|Token(v)|..] == v[|Token(v)|..] + s
  {
    TokenOfFront(v, s);
  }

  /** Behind a word character the renaming starts afresh at what is no word character. */
  lemma {:induction false} RenameSplits(v: string, s: string, prev: bool, m: map<string, string>)
    requires DotMap(m) && EndsOr(v, prev) && StopsWord(s)
    ensures Rename(v + s, prev, m) == Rename(v, prev, m) + Rename(s, true, m)
    ensures EndsOr(Rename(v, prev, m), prev)
    decreases |v|
  {
    hide IsLabel, IsWord, Token, DotMap, StopsWord, Rename, EndsInWord;
    if v == "" {
      assert v + s == s;
      RenameNothing(prev, m);
    } else if Begins(v, prev) && Token(v) in m {
      var t := Token(v);
      TokenOfFront(v, s);
      TokenIsDropped(v, s);
      RestEndsInWord(v, |t|);
      ImageIsDotted(m, t);
      RenamesFirst(v, prev, m);
      RenamesFirst(v + s, prev, m);
      RenameSplits(v[|t|..], s, true, m);
      EndsTogether(m[t], Rename(v[|t|..], true, m), true);
    } else {
      TokenOfFront(v, s);
      RestEndsInWord(v, 1);
      assert (v + s)[1..] == v[1..] + s && (v + s)[0] == v[0];
      CopiesFirst(v, prev, m);
      CopiesFirst(v + s, prev, m);
      RenameSplits(v[1..], s, IsWord(v[0]), m);
      EndsTogether([v[0]], Rename(v[1..], IsWord(v[0]), m), IsWord(v[0]));
    }
  }

  lemma EndsTogether(a: string, b: string, prev: bool)
    requires a != "" && EndsOr(b, prev) && (prev ==> EndsInWord(a))
    ensures EndsInWord(a + b)
  {
    if b == "" {
      assert a + b == a;
    }
  }

  lemma ImageIsDotted(m: map<string, string>, t: string)
    requires DotMap(m) && t in m
    ensures IsLabel(t) && |t| >= 2 && EndsInWord(m[t]) && m[t][0] == '.'
  {
  }

  lemma {:induction false} TokensSplit(v: string, s: string, prev: bool)
    requires EndsOr(v, prev) && StopsWord(s)
    ensures Tokens(v + s, prev) == Tokens(v, prev) + Tokens(s, true)
    decreases |v|
  {
    hide IsWord, Token, StopsWord, Tokens, EndsInWord;
    if v == "" {
      assert v + s == s;
      NoTokens(prev);
    } else {
      TokenOfFront(v, s);
      RestEndsInWord(v, 1);
      assert (v + s)[1..] == v[1..] + s && (v + s)[0] == v[0];
      FirstToken(v, prev);
      FirstToken(v + s, prev);
      TokensSplit(v[1..], s, IsWord(v[0]));
    }
  }

  /** The tokens of a renamed text are those of the new labels, and the old ones that stay. */
  lemma {:induction false} RenamedTokens(s: string, prev: bool, m: map<string, string>, t: string)
    requires DotMap(m)
    ensures t in Tokens(Rename(s, prev, m), prev) <==>
              exists u :: u in Tokens(s, prev) && t in (if u in m then Tokens(m[u], false) else [u])
    decreases |s|
  {
    hide Rename, Tokens, IsLabel, DotMap, Token, StopsWord;
    if s == "" {
      RenameNothing(prev, m);
      NoTokens(prev);
    } else if BeginsLabel(s, prev) {
      var u := Token(s);
      SplitsToken(s);
      var rest := s[|u|..];
      LabelIsLong(u);
      RenamedTokens(rest, true, m, t);
      OneToken(u, rest, m);
      StillStops(rest, true, m);
      if u in m {
        ImageIsDotted(m, u);
        TokensSplit(m[u], Rename(rest, true, m), false);
      } else {
        OneToken(u, Rename(rest, true, m), m);
      }
    } else {
      RenamedTokens(s[1..], IsWord(s[0]), m, t);
      CopiesOther(s, prev, m, m);
      var tail := Rename(s[1..], IsWord(s[0]), m);
      TokenIsKept(s, m);
      FirstToken(s, prev);
      FirstToken([s[0]] + tail, prev);
      assert ([s[0]] + tail)[1..] == tail;
      if Begins(s, prev) {
        NotRenamed(s, prev, m);
      }
    }
  }

  /** Replacing a label by a longer text makes no text shorter, and one that holds the label longer. */
  lemma {:induction false} RenameGrows(s: string, prev: bool, l: string, r: string)
    requires IsLabel(l) && |r| > |l|
    ensures |Rename(s, prev, map[l := r])| >= |s|
    ensures l in Tokens(s, prev) ==> |Rename(s, prev, map[l := r])| > |s|
    decreases |s|
  {
    hide IsLabel, Token, IsWord;
    LabelIsLong(l);
    if s != "" {
      if Begins(s, prev) && Token(s) == l {
        SplitsToken(s);
        RenameGrows(s[|l|..], true, l, r);
      } else {
        RenameGrows(s[1..], IsWord(s[0]), l, r);
      }
    }
  }

  // ----- Replacing one token in place -----

  predicate OccursAt(s: string, t: string, k: nat) { k + |t| <= |s| && s[k..k + |t|] == t }

  /** The first occurrence from a position on. */
  method Find(s: string, t: string, start: nat) returns (r: Option<nat>)
    requires start <= |s|
    ensures r.Some? ==> start <= r.value && OccursAt(s, t, r.value)
    ensures forall k :: start <= k < (if r.Some? then r.value else |s|) ==> !OccursAt(s, t, k)
  {
    for i := start to |s|
      invariant forall k :: start <= k < i ==> !OccursAt(s, t, k)
    {
      if OccursAt(s, t, i) {
        return Some(i);
      }
    }
    r := None;
  }

  function Before(s: string, k: nat, prev: bool): bool
    requires k <= |s|
  {
    if k == 0 then prev else IsWord(s[k - 1])
  }

  lemma TokenOccurs(s: string, t: string)
    requires s != "" && Token(s) == t
    ensures OccursAt(s, t, 0)
  {
  }

  /** Where the label does not occur, characters are copied. */
  lemma {:induction false} CopiesUpTo(s: string, prev: bool, t: string, r: string, n: nat)
    requires n <= |s| && forall k :: 0 <= k < n ==> !OccursAt(s, t, k)
    ensures Rename(s, prev, map[t := r]) == s[..n] + Rename(s[n..], Before(s, n, prev), map[t := r])
    decreases n
  {
    hide Rename, Token, IsWord;
    if n == 0 {
      assert s[n..] == s;
    } else {
      var m := map[t := r];
      if Token(s) == t {
        TokenOccurs(s, t);
        assert false;
      }
      CopiesFirst(s, prev, m);
      forall k | 0 <= k < n - 1 ensures !OccursAt(s[1..], t, k) {
        OccursInTail(s, t, k);
      }
      CopiesUpTo(s[1..], IsWord(s[0]), t, r, n - 1);
      assert s[..n] == [s[0]] + s[1..][..n - 1] && s[1..][n - 1..] == s[n..];
    }
  }

  lemma OccursInTail(s: string, t: string, k: nat)
    requires s != ""
    ensures OccursAt(s[1..], t, k) <==> OccursAt(s, t, k + 1)
  {
    if k + 1 + |t| <= |s| {
      assert s[1..][k..k + |t|] == s[k + 1..k + 1 + |t|];
    }
  }

  /** A label inside a longer word is not a token, and is copied whole. */
  lemma CopiesBroken(s: string, prev: bool, t: string, r: string)
    requires IsLabel(t) && OccursAt(s, t, 0)
    requires prev || (|t| < |s| && IsWord(s[|t|]))
    ensures Rename(s, prev, map[t := r]) == t + Rename(s[|t|..], true, map[t := r])
  {
    hide Rename;
    var m := map[t := r];
    assert Begins(s, prev) ==> Token(s) !in m by {
      if !prev && Token(s) == t {
        SplitsToken(s);
      }
    }
    CopiesFirst(s, prev, m);
    assert s[1..] == t[1..] + s[|t|..];
    CopiesWord(t[1..], s[|t|..], false, m);
  }

  lemma ReplacesWhole(s: string, t: string, r: string)
    requires IsLabel(t) && OccursAt(s, t, 0) && (|s| == |t| || !IsWord(s[|t|]))
    ensures Rename(s, false, map[t := r]) == r + Rename(s[|t|..], true, map[t := r])
  {
    assert s == t + s[|t|..];
    ReplacesToken(t, s[|t|..], map[t := r]);
  }

  /** Replaces the label wherever it stands as a whole token, and nowhere else. */
  method ReplaceWordToken(line: string, target: string, replacement: string) returns (r: string)
    requires IsLabel(target) && EndsInWord(replacement)
    ensures r == Rename(line, false, map[target := replacement])
  {
    hide Rename, IsWord, IsLabel, EndsInWord, Resumed;
    LabelIsLong(target);
    ghost var m := map[target := replacement];
    r := line;
    var pos := 0;
    ResumedEnds(line, m);
    while true
      invariant 0 <= pos <= |r|
      invariant Rename(line, false, m) == Resumed(r, pos, m)
      decreases |r| - pos
    {
      var found := Find(r, target, pos);
      FoundSplits(r, pos, target, replacement, if found.Some? then found.value else |r|);
      if found.None? {
        ResumedEnds(r, m);
        break;
      }
      pos := found.value;
      var after := pos + |target|;
      if (pos > 0 && IsWord(r[pos - 1])) || (after < |r| && IsWord(r[after])) {
        SkipsBroken(r, pos, target, replacement);
        pos := after;
      } else {
        ReplacesAt(r, pos, target, replacement);
        r, pos := r[..pos] + replacement + r[after..], pos + |replacement|;
      }
    }
  }

  /** What is left to rename from a position on, after what is done. */
  function Resumed(r: string, k: nat, m: map<string, string>): string
    requires k <= |r|
  {
    r[..k] + Rename(r[k..], Before(r, k, false), m)
  }

  lemma ResumedEnds(r: string, m: map<string, string>)
    ensures Resumed(r, 0, m) == Rename(r, false, m) && Resumed(r, |r|, m) == r
  {
    assert r[0..] == r && r[..0] == "" && r[|r|..] == "" && r[..|r|] == r;
  }

  lemma SkipsBroken(r: string, pos: nat, t: string, replacement: string)
    requires IsLabel(t) && OccursAt(r, t, pos)
    requires Before(r, pos, false) || (pos + |t| < |r| && IsWord(r[pos + |t|]))
    ensures Resumed(r, pos, map[t := replacement]) == Resumed(r, pos + |t|, map[t := replacement])
  {
    hide Rename, IsWord, IsLabel;
    LabelIsLong(t);
    LabelEndsInWord(t);
    var after, rest := pos + |t|, r[pos..];
    assert OccursAt(rest, t, 0) && (after < |r| ==> rest[|t|] == r[after]);
    assert rest[|t|..] == r[after..] && r[..after] == r[..pos] + t;
    CopiesBroken(rest, Before(r, pos, false), t, replacement);
    assert r[after - 1] == t[|t| - 1];
  }

  lemma ReplacesAt(r: string, pos: nat, t: string, replacement: string)
    requires IsLabel(t) && OccursAt(r, t, pos) && EndsInWord(replacement)
    requires !Before(r, pos, false) && !(pos + |t| < |r| && IsWord(r[pos + |t|]))
    ensures Resumed(r, pos, map[t := replacement])
         == Resumed(r[..pos] + replacement + r[pos + |t|..], pos + |replacement|, map[t := replacement])
  {
    hide Rename, IsWord, IsLabel;
    var after, rest := pos + |t|, r[pos..];
    assert OccursAt(rest, t, 0) && (after < |r| ==> rest[|t|] == r[after]);
    assert rest[|t|..] == r[after..];
    ReplacesWhole(rest, t, replacement);
    var next := r[..pos] + replacement + r[after..];
    var end := pos + |replacement|;
    assert next[..end] == r[..pos] + replacement && next[end..] == r[after..];
    assert next[end - 1] == replacement[|replacement| - 1];
  }

  lemma FoundSplits(r: string, pos: nat, t: string, replacement: string, k: nat)
    requires pos <= k <= |r| && forall i :: pos <= i < k ==> !OccursAt(r, t, i)
    ensures Resumed(r, pos, map[t := replacement]) == Resumed(r, k, map[t := replacement])
  {
    hide Rename, IsWord;
    forall i | 0 <= i < k - pos ensures !OccursAt(r[pos..], t, i) {
      OccursInSuffix(r, pos, t, i);
    }
    CopiesUpTo(r[pos..], Before(r, pos, false), t, replacement, k - pos);
    assert r[pos..][k - pos..] == r[k..] && r[..pos] + r[pos..][..k - pos] == r[..k];
  }

  lemma OccursInSuffix(r: string, pos: nat, t: string, i: nat)
    requires pos <= |r|
    ensures OccursAt(r[pos..], t, i) <==> OccursAt(r, t, pos + i)
  {
    if pos + i + |t| <= |r| {
      assert r[pos..][i..i + |t|] == r[pos + i..pos + i + |t|];
    }
  }
}
