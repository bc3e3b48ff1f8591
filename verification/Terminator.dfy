/** pop3nio.c, `byte_stuffer`: the automaton that watches a mail for the line that ends it. */
module Terminator {
  import opened Bytes

  /** CR LF . CR LF */
  const TERM: Str := [CR, LF, DOT, CR, LF]

  const START: nat := 0

  /** One octet from state `k`: the next state. A match leaves the state alone, the code returns before touching it. */
  function Next(k: nat, c: byte): (r: nat)
    ensures k < 5 ==> r < 5
  {
    if c == CR && k == 0 then 1
    else if c == LF && k == 1 then 2
    else if c == DOT && k == 2 then 3
    else if c == CR && k == 3 then 4
    else if c == LF && k == 4 then k
    else 0
  }

  predicate Hit(k: nat, c: byte) {
    k == 4 && c == LF
  }

  /** The routine itself: `state` is the variable it updates, `hit` what it returns. */
  method ByteStuffer(input: byte, state: nat) returns (state': nat, hit: bool)
    ensures state' == Next(state, input) && hit == Hit(state, input)
  {
    state', hit := state, false;
    if input == CR && state == 0 {
      state' := 1;
    } else if input == LF && state == 1 {
      state' := 2;
    } else if input == DOT && state == 2 {
      state' := 3;
    } else if input == CR && state == 3 {
      state' := 4;
    } else if input == LF && state == 4 {
      return state', true;
    } else {
      state' := 0;
    }
  }

  /** How many octets of `s` are read up to and including the first match, starting in state `k`. */
  function Scan(k: nat, s: Str): (n: Option<nat>)
    ensures n.Some? ==> 0 < n.value <= |s|
  {
    if s == [] then None
    else
      var init := s[..|s| - 1];
      if Scan(k, init).Some? then Scan(k, init)
      else if Hit(StateAfter(k, init), s[|s| - 1]) then Some(|s|)
      else None
  }

  /** The state after all of `s`. */
  function StateAfter(k: nat, s: Str): (r: nat)
    ensures k < 5 ==> r < 5
  {
    if s == [] then k else Next(StateAfter(k, s[..|s| - 1]), s[|s| - 1])
  }

  predicate EndsWith(s: Str, t: Str) {
    |t| <= |s| && s[|s| - |t|..] == t
  }

  lemma {:induction false} StateSplit(k: nat, a: Str, b: Str)
    ensures StateAfter(k, a + b) == StateAfter(StateAfter(k, a), b)
  {
    if b == [] {
      assert a + b == a;
    } else {
      var b' := b[..|b| - 1];
      assert (a + b)[..|a + b| - 1] == a + b';
      StateSplit(k, a, b');
    }
  }

  lemma {:induction false} ScanSplit(k: nat, a: Str, b: Str)
    ensures Scan(k, a).Some? ==> Scan(k, a + b) == Scan(k, a)
    ensures Scan(k, a).None? ==>
              Scan(k, a + b) == match Scan(StateAfter(k, a), b) case Some(n) => Some(|a| + n) case None => None
  {
    if b == [] {
      assert a + b == a;
    } else {
      var b' := b[..|b| - 1];
      assert (a + b)[..|a + b| - 1] == a + b';
      ScanSplit(k, a, b');
      StateSplit(k, a, b');
    }
  }

  /** Before a match, state k means that the last k octets are the first k of CR LF . CR LF. */
  lemma StateIsMatchedPrefix(s: Str)
    requires Scan(START, s).None?
    ensures var k := StateAfter(START, s); k < 5 && EndsWith(s, TERM[..k])
  {
    StateContinuesPrefix([], START, s);
    assert [] + s == s;
  }

  /** The same in the middle of a stream: `w` is what went before and `k` the state it left. */
  lemma {:induction false} StateContinuesPrefix(w: Str, k: nat, s: Str)
    requires k < 5 && EndsWith(w, TERM[..k]) && Scan(k, s).None?
    ensures EndsWith(w + s, TERM[..StateAfter(k, s)])
  {
    if s == [] {
      assert w + s == w;
    } else {
      var init, c := s[..|s| - 1], s[|s| - 1];
      assert s == init + [c];
      ScanStep(k, init, c);
      StateContinuesPrefix(w, k, init);
      NextPrefix(w + init, StateAfter(k, init), c);
      assert w + s == (w + init) + [c];
    }
  }

  lemma EndsStep(w: Str, t: Str, c: byte)
    requires EndsWith(w, t)
    ensures EndsWith(w + [c], t + [c])
  {
  }

  /** In state k the automaton waits for octet k of the terminator. */
  lemma NextOfTerm(k: nat, c: byte)
    requires k < 5
    ensures TERM[..k] + [TERM[k]] == TERM[..k + 1]
    ensures Hit(k, c) ==> k == 4 && c == TERM[k]
    ensures Next(k, c) != 0 && !Hit(k, c) ==> Next(k, c) == k + 1 && c == TERM[k]
  {
  }

  lemma NextPrefix(w: Str, k: nat, c: byte)
    requires k < 5 && EndsWith(w, TERM[..k])
    ensures !Hit(k, c) ==> EndsWith(w + [c], TERM[..Next(k, c)])
    ensures Hit(k, c) ==> EndsWith(w + [c], TERM)
  {
    NextOfTerm(k, c);
    EndsStep(w, TERM[..k], c);
    assert TERM[..0] == [] && TERM[..5] == TERM;
  }

  /** When a match comes, what was read so far ends with the terminator. */
  lemma MatchContinuesPrefix(w: Str, k: nat, s: Str, n: nat)
    requires k < 5 && EndsWith(w, TERM[..k]) && Scan(k, s) == Some(n)
    ensures n <= |s| && EndsWith(w + s[..n], TERM)
  {
    hide Scan;
    hide StateAfter;
    hide EndsWith;
    ScanEnds(k, s, n);
    var init := s[..n - 1];
    StateContinuesPrefix(w, k, init);
    NextPrefix(w + init, StateAfter(k, init), s[n - 1]);
    assert w + s[..n] == (w + init) + [s[n - 1]];
  }

  /** A match is reported only when the last five octets are the terminator. */
  lemma MatchIsSound(s: Str, n: nat)
    requires Scan(START, s) == Some(n)
    ensures 5 <= n <= |s| && s[n - 5..n] == TERM
  {
    MatchContinuesPrefix([], START, s, n);
    assert [] + s[..n] == s[..n];
  }

  lemma {:induction false} ScanEnds(k: nat, s: Str, n: nat)
    requires Scan(k, s) == Some(n)
    ensures 0 < n <= |s| && Scan(k, s[..n - 1]).None? && Hit(StateAfter(k, s[..n - 1]), s[n - 1])
    ensures Scan(k, s[..n]) == Some(n)
  {
    if n < |s| {
      ScanEnds(k, s[..|s| - 1], n);
      assert s[..|s| - 1][..n - 1] == s[..n - 1] && s[..|s| - 1][..n] == s[..n];
    } else {
      assert s[..n] == s;
    }
  }

  lemma ScanNewline(k: nat)
    requires k < 5
    ensures Scan(k, [CR, LF]) == if k == 3 then Some(2) else None
    ensures StateAfter(k, [CR, LF]) == if k == 0 then 2 else if k == 3 then 4 else 0
  {
    assert [CR, LF][..1] == [CR] && [CR][..0] == [];
    assert StateAfter(k, [CR]) == Next(k, CR);
  }

  lemma ScanTerm(k: nat)
    requires k < 5
    ensures Scan(k, TERM) == if k == 0 then Some(5) else if k == 3 then Some(2) else None
  {
    ScanNewline(k);
    ScanSplit(k, [CR, LF], [DOT, CR, LF]);
    assert TERM == [CR, LF] + [DOT, CR, LF];
    var j := StateAfter(k, [CR, LF]);
    assert [DOT, CR, LF] == [DOT] + [CR, LF] && [DOT][..0] == [];
    assert StateAfter(j, [DOT]) == Next(j, DOT);
    ScanSplit(j, [DOT], [CR, LF]);
    ScanNewline(Next(j, DOT));
  }

  /** An occurrence of the terminator that no match precedes is recognised exactly when the automaton enters it in
      its start state: any partial match in progress (a CR, or CR LF, or CR LF . CR just before) hides it. */
  lemma RecognisedIffAtStart(s: Str, i: nat)
    requires i + 5 <= |s| && s[i..i + 5] == TERM
    requires Scan(START, s[..i]).None?
    ensures Scan(START, s) == Some(i + 5) <==> StateAfter(START, s[..i]) == START
  {
    hide Scan;
    hide StateAfter;
    assert s == s[..i] + TERM + s[i + 5..];
    AtStart(s[..i], s[i + 5..]);
  }

  lemma AtStart(a: Str, rest: Str)
    requires Scan(START, a).None?
    ensures Scan(START, a + TERM + rest) == Some(|a| + 5) <==> StateAfter(START, a) == START
  {
    StateIsMatchedPrefix(a);
    hide Scan;
    hide StateAfter;
    hide EndsWith;
    ScanTerm(StateAfter(START, a));
    ScanSplit(START, a, TERM);
    ScanSplit(START, a + TERM, rest);
  }

  /** In particular it is recognised at the start of the input and after any octet that is not CR, LF or a dot. */
  lemma RecognisedAfterPlainOctet(s: Str, i: nat)
    requires i + 5 <= |s| && s[i..i + 5] == TERM
    requires Scan(START, s[..i]).None?
    requires i == 0 || (s[i - 1] != CR && s[i - 1] != LF && s[i - 1] != DOT)
    ensures Scan(START, s) == Some(i + 5)
  {
    if i > 0 {
      assert s[..i][..i - 1] == s[..i - 1];
    }
    RecognisedIffAtStart(s, i);
  }

  /** A terminator in two pieces, each looked at from the start state, is seen in neither. */
  lemma CutIsMissed(k: nat)
    requires 0 < k < 5
    ensures TERM[..k] + TERM[k..] == TERM && Scan(START, TERM[..k]).None? && Scan(START, TERM[k..]).None?
  {
    ShortIsNoMatch(TERM[..k]);
    ShortIsNoMatch(TERM[k..]);
  }

  lemma ShortIsNoMatch(s: Str)
    requires |s| < 5
    ensures Scan(START, s).None?
  {
    if Scan(START, s).Some? {
      MatchIsSound(s, Scan(START, s).value);
    }
  }

  // ---------------------------------------------------------------------------------------------
  // Whole mails: lines free of CR and LF, each closed by CR LF.

  predicate PlainLine(l: Str) {
    CR !in l && LF !in l
  }

  predicate PlainLines(lines: seq<Str>) {
    forall l | l in lines :: PlainLine(l)
  }

  /** Whether the automaton is half way into a terminator (CR LF seen) after `lines`: a run of blank lines flips it. */
  predicate Primed(lines: seq<Str>) {
    lines != [] && (lines[|lines| - 1] != [] || !Primed(lines[..|lines| - 1]))
  }

  /** The number of blank lines that `lines` ends with. */
  function BlankTail(lines: seq<Str>): (n: nat)
    ensures n <= |lines|
  {
    if lines == [] || lines[|lines| - 1] != [] then 0 else 1 + BlankTail(lines[..|lines| - 1])
  }

  /** The code recognises line `i` as the terminator: it is a lone dot and the blank lines before it are even in
      number, or odd if nothing but blank lines precedes. */
  predicate Recognised(lines: seq<Str>, i: nat)
    requires i < |lines|
  {
    var blanks := BlankTail(lines[..i]);
    lines[i] == [DOT] && (blanks % 2 == 0 <==> blanks < i)
  }

  lemma {:induction false} PrimedByParity(lines: seq<Str>)
    ensures var blanks := BlankTail(lines); Primed(lines) <==> (blanks % 2 == 0 <==> blanks < |lines|)
  {
    if lines != [] && lines[|lines| - 1] == [] {
      PrimedByParity(lines[..|lines| - 1]);
    }
  }

  lemma ScanStep(k: nat, s: Str, c: byte)
    ensures StateAfter(k, s + [c]) == Next(StateAfter(k, s), c)
    ensures Scan(k, s).None? ==> Scan(k, s + [c]) == if Hit(StateAfter(k, s), c) then Some(|s| + 1) else None
  {
    assert (s + [c])[..|s|] == s;
  }

  /** A line's own octets take the automaton back to the start state, unless it is the lone dot after CR LF. */
  lemma {:induction false} PlainOctets(k: nat, l: Str)
    requires PlainLine(l) && (k == 0 || k == 2)
    ensures Scan(k, l).None?
    ensures StateAfter(k, l) == if l == [] then k else if k == 2 && l == [DOT] then 3 else 0
  {
    if l != [] {
      var init, c := l[..|l| - 1], l[|l| - 1];
      PlainOctets(k, init);
      ScanStep(k, init, c);
      assert l == init + [c];
    }
  }

  /** One more line. */
  lemma LineStep(lines: seq<Str>, l: Str)
    requires PlainLine(l)
    requires Scan(START, Glue(lines)).None?
    requires StateAfter(START, Glue(lines)) == if Primed(lines) then 2 else 0
    ensures var s := Glue(lines) + l + [CR, LF];
      if Primed(lines) && l == [DOT] then Scan(START, s) == Some(|s|)
      else Scan(START, s).None? && StateAfter(START, s) == if l != [] || !Primed(lines) then 2 else 0
  {
    var w := Glue(lines);
    var k := StateAfter(START, w);
    PlainOctets(k, l);
    ScanSplit(START, w, l);
    StateSplit(START, w, l);
    ScanNewline(StateAfter(k, l));
    ScanSplit(START, w + l, [CR, LF]);
    StateSplit(START, w + l, [CR, LF]);
  }

  /** The first line the code recognises as the terminator. */
  function FirstRecognised(lines: seq<Str>): (i: Option<nat>)
    ensures i.Some? ==> i.value < |lines| && Recognised(lines, i.value)
    ensures i.Some? ==> forall j | 0 <= j < i.value :: !Recognised(lines, j)
    ensures i.None? ==> forall j | 0 <= j < |lines| :: !Recognised(lines, j)
  {
    if lines == [] then None
    else
      var n := |lines| - 1;
      assert forall j | 0 <= j < n :: Recognised(lines[..n], j) == Recognised(lines, j) by {
        assert forall j | 0 <= j < n :: lines[..n][..j] == lines[..j];
      }
      if FirstRecognised(lines[..n]).Some? then FirstRecognised(lines[..n])
      else if Recognised(lines, n) then Some(n)
      else None
  }

  /** A mail is taken to end exactly with the first line that is recognised, and nowhere else. */
  lemma {:induction false} EndOfMail(lines: seq<Str>)
    requires PlainLines(lines)
    ensures match FirstRecognised(lines)
      case None => Scan(START, Glue(lines)).None? && StateAfter(START, Glue(lines)) == if Primed(lines) then 2 else 0
      case Some(i) => Scan(START, Glue(lines)) == Some(|Glue(lines[..i + 1])|)
  {
    if lines != [] {
      var n := |lines| - 1;
      var init, l := lines[..n], lines[n];
      EndOfMail(init);
      NextLine(init, l);
      assert lines == init + [l] && lines[..n + 1] == lines;
      hide Scan;
      hide StateAfter;
      hide Glue;
      match FirstRecognised(init) {
        case Some(i) =>
          ScanSplit(START, Glue(init), l + [CR, LF]);
          assert lines[..i + 1] == init[..i + 1];
        case None =>
          LineStep(init, l);
      }
    }
  }

  /** Whether the next line is recognised. */
  lemma NextLine(init: seq<Str>, l: Str)
    ensures var lines := init + [l];
      && Glue(lines) == Glue(init) + l + [CR, LF] == Glue(init) + (l + [CR, LF])
      && (FirstRecognised(init).Some? ==> FirstRecognised(lines) == FirstRecognised(init))
      && (FirstRecognised(init).None? ==>
            FirstRecognised(lines) == if Primed(init) && l == [DOT] then Some(|init|) else None)
      && (Primed(lines) <==> l != [] || !Primed(init))
  {
    var lines := init + [l];
    assert lines[..|init|] == init;
    PrimedByParity(init);
    hide BlankTail;
    Assoc(Glue(init), l, [CR, LF]);
  }

  /** The mails the code cannot end: text, one blank line, the terminator. RFC 1939 ends the mail there. */
  lemma BlankLineHidesTerminator(l: Str)
    requires PlainLine(l) && l != []
    ensures var lines := [l, [], [DOT]];
      EndsWith(Glue(lines), TERM) && Scan(START, Glue(lines)).None?
  {
    var lines := [l, [], [DOT]];
    assert lines[..2] == [l, []] && [l, []][..1] == [l] && [l][..0] == [] && lines[..0] == [];
    assert BlankTail([l]) == 0 && BlankTail([l, []]) == 1;
    assert !Recognised(lines, 0) && !Recognised(lines, 1) && !Recognised(lines, 2);
    EndOfMail(lines);
    assert Glue(lines) == Glue([l]) + [] + [CR, LF] + [DOT] + [CR, LF];
  }
}
