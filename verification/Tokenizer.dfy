/** tokenizer.c and parser.c: command lines, octet by octet, through a first-match transition table. */
module Tokenizer {
  import opened Bytes

  // ---------------------------------------------------------------------------------------------
  // What a command line means.

  /** A complete command: its first word and up to two arguments, absent when empty. */
  datatype Command = Command(name: Str, arg1: Option<Str>, arg2: Option<Str>)

  /** The part of a line before its first CR. */
  function BeforeCr(line: Str): (text: Str)
    ensures text <= line && CR !in text
    ensures |text| < |line| ==> line[|text|] == CR
  {
    if line == [] then []
    else
      var init := line[..|line| - 1];
      var text := BeforeCr(init);
      if |text| == |init| && line[|line| - 1] != CR then line else text
  }

  /** The words of a text; consecutive spaces enclose empty words. */
  function Split(text: Str): (ws: seq<Str>)
    ensures ws != []
  {
    if text == [] then [[]]
    else
      var n := |text| - 1;
      var ws := Split(text[..n]);
      if text[n] == SPACE then ws + [[]] else ws[..|ws| - 1] + [ws[|ws| - 1] + [text[n]]]
  }

  function Join(ws: seq<Str>): Str
    requires ws != []
  {
    if |ws| == 1 then ws[0] else Join(ws[..|ws| - 1]) + [SPACE] + ws[|ws| - 1]
  }

  predicate NoSpaces(ws: seq<Str>) {
    forall i | 0 <= i < |ws| :: SPACE !in ws[i]
  }

  lemma JoinStep(ws: seq<Str>, w: Str)
    requires ws != []
    ensures Join(ws + [w]) == Join(ws) + [SPACE] + w
  {
    assert (ws + [w])[..|ws|] == ws;
  }

  lemma JoinOctet(ws: seq<Str>, c: byte)
    requires ws != []
    ensures Join(ws[..|ws| - 1] + [ws[|ws| - 1] + [c]]) == Join(ws) + [c]
  {
    var m := |ws| - 1;
    if m > 0 {
      JoinStep(ws[..m], ws[m] + [c]);
      JoinStep(ws[..m], ws[m]);
      Assoc(Join(ws[..m]) + [SPACE], ws[m], [c]);
      assert ws[..m] + [ws[m]] == ws;
    } else {
      assert ws[..m] == [];
    }
  }

  /** Split is the split at spaces: its words hold no space and put together again they are the text. */
  lemma {:induction false} SplitIsSplit(text: Str)
    ensures Join(Split(text)) == text && NoSpaces(Split(text))
  {
    if text != [] {
      var n := |text| - 1;
      var ws := Split(text[..n]);
      SplitIsSplit(text[..n]);
      assert text == text[..n] + [text[n]];
      if text[n] == SPACE {
        JoinStep(ws, []);
      } else {
        JoinOctet(ws, text[n]);
      }
    }
  }

  /** How many octets of word `i` are kept. */
  function Cap(i: nat): nat {
    if i == 0 then 4 else 40
  }

  function Kept(ws: seq<Str>, i: nat): Str
    requires i < |ws|
  {
    ws[i][..Min(|ws[i]|, Cap(i))]
  }

  /** Word `i` as the tokenizer holds it: cut to its capacity, absent if empty or missing. */
  function Stored(ws: seq<Str>, i: nat): Option<Str> {
    if i < |ws| && ws[i] != [] then Some(Kept(ws, i)) else None
  }

  /** The command a line stands for. */
  function Meaning(line: Str): Command {
    var ws := Split(BeforeCr(line));
    Command(Kept(ws, 0), Stored(ws, 1), Stored(ws, 2))
  }

  lemma SplitStep(text: Str, c: byte)
    ensures Split(text + [c]) ==
            var ws := Split(text);
            if c == SPACE then ws + [[]] else ws[..|ws| - 1] + [ws[|ws| - 1] + [c]]
  {
    assert (text + [c])[..|text|] == text;
  }

  lemma {:induction false} SplitWord(w: Str)
    requires SPACE !in w
    ensures Split(w) == [w]
  {
    if w != [] {
      var init := w[..|w| - 1];
      SplitWord(init);
      assert init + [w[|w| - 1]] == w;
    }
  }

  /** Texts put together with a space have the words of both. */
  lemma {:induction false} SplitConcat(a: Str, b: Str)
    ensures Split(a + [SPACE] + b) == Split(a) + Split(b)
  {
    if b == [] {
      assert a + [SPACE] + b == a + [SPACE];
      SplitStep(a, SPACE);
    } else {
      var init, c := b[..|b| - 1], b[|b| - 1];
      SplitConcat(a, init);
      hide Split;
      assert a + [SPACE] + b == a + [SPACE] + init + [c] && b == init + [c];
      ConcatStep(a, init, c);
    }
  }

  lemma ConcatStep(a: Str, b: Str, c: byte)
    requires Split(a + [SPACE] + b) == Split(a) + Split(b)
    ensures Split(a + [SPACE] + b + [c]) == Split(a) + Split(b + [c])
  {
    SplitStep(a + [SPACE] + b, c);
    SplitStep(b, c);
    hide Split;
    LastOfBoth(Split(a), Split(b), c);
  }

  lemma LastOfBoth(ws: seq<Str>, more: seq<Str>, c: byte)
    requires more != []
    ensures var all := ws + more;
      && all + [[]] == ws + (more + [[]])
      && all[..|all| - 1] + [all[|all| - 1] + [c]] == ws + (more[..|more| - 1] + [more[|more| - 1] + [c]])
  {
  }

  /** The split is the inverse of joining: it gives back any words without spaces. */
  lemma {:induction false} SplitOfJoin(ws: seq<Str>)
    requires ws != [] && NoSpaces(ws)
    ensures Split(Join(ws)) == ws
  {
    var init, w := ws[..|ws| - 1], ws[|ws| - 1];
    SplitWord(w);
    if |ws| > 1 {
      SplitOfJoin(init);
      SplitConcat(Join(init), w);
    }
  }

  lemma {:induction false} JoinHasNoCr(ws: seq<Str>)
    requires ws != [] && forall i | 0 <= i < |ws| :: CR !in ws[i]
    ensures CR !in Join(ws)
  {
    if |ws| > 1 {
      JoinHasNoCr(ws[..|ws| - 1]);
    }
  }

  lemma WholeBeforeCr(text: Str, rest: Str)
    requires CR !in text && (rest == [] || rest[0] == CR)
    ensures BeforeCr(text + rest) == text
  {
    var t, whole := BeforeCr(text + rest), text + rest;
    hide BeforeCr;
    assert forall k | 0 <= k < |text| :: whole[k] == text[k] && text[k] in text;
    assert |t| >= |text|;
    assert forall k | 0 <= k < |t| :: whole[k] == t[k] && t[k] in t;
    assert rest != [] ==> whole[|text|] == CR;
    assert |t| == |text|;
  }

  /** Words put together with single spaces are understood as these words, the first with up to 4 octets, two arguments with
      up to 40 each; an empty argument is none, and further words play no part. */
  lemma WordsAreKept(ws: seq<Str>)
    requires ws != [] && NoSpaces(ws) && forall i | 0 <= i < |ws| :: CR !in ws[i]
    ensures var c := Meaning(Join(ws));
      && c.name == (if |ws[0]| <= 4 then ws[0] else ws[0][..4])
      && c.arg1 == (if |ws| < 2 || ws[1] == [] then None else Some(if |ws[1]| <= 40 then ws[1] else ws[1][..40]))
      && c.arg2 == (if |ws| < 3 || ws[2] == [] then None else Some(if |ws[2]| <= 40 then ws[2] else ws[2][..40]))
  {
    SplitOfJoin(ws);
    JoinHasNoCr(ws);
    WholeBeforeCr(Join(ws), []);
    assert Join(ws) + [] == Join(ws);
    hide Split;
    hide Join;
    hide BeforeCr;
    forall i | 0 <= i < |ws| && |ws[i]| <= Cap(i)
      ensures Kept(ws, i) == ws[i]
    {
    }
  }

  // ---------------------------------------------------------------------------------------------
  // Streams: lines end at CR LF.

  datatype Cut = Cut(lines: seq<Str>, rest: Str)

  predicate EndsLine(line: Str, c: byte) {
    line != [] && line[|line| - 1] == CR && c == LF
  }

  /** One more octet: CR LF closes the line. */
  function Extend(cut: Cut, c: byte): Cut {
    if EndsLine(cut.rest, c) then Cut(cut.lines + [cut.rest[..|cut.rest| - 1]], [])
    else Cut(cut.lines, cut.rest + [c])
  }

  /** The complete lines of a stream, without their CR LF, and the unfinished one. */
  function CutLines(s: Str): Cut {
    if s == [] then Cut([], []) else Extend(CutLines(s[..|s| - 1]), s[|s| - 1])
  }

  lemma CutStep(s: Str, c: byte)
    ensures CutLines(s + [c]) == Extend(CutLines(s), c)
  {
    assert (s + [c])[..|s|] == s;
  }

  /** No LF directly behind a CR. */
  predicate NoCrLf(s: Str) {
    |s| <= 1 || (NoCrLf(s[..|s| - 1]) && !EndsLine(s[..|s| - 1], s[|s| - 1]))
  }

  lemma {:induction false} NoCrLfMeans(s: Str, i: nat)
    requires NoCrLf(s) && i + 1 < |s|
    ensures !(s[i] == CR && s[i + 1] == LF)
  {
    if i + 2 < |s| {
      NoCrLfMeans(s[..|s| - 1], i);
    }
  }

  /** A line whose CR LF is the only one in it. */
  predicate IsLine(l: Str) {
    NoCrLf(l + [CR])
  }

  /** Every CR LF of the stream ends a line and nothing else does: glued together again the lines are the stream,
      and neither a line nor the unfinished rest contains a CR LF. */
  lemma {:induction false} CutIsCut(s: Str)
    ensures WellCut(s, CutLines(s))
  {
    if s != [] {
      var init, c := s[..|s| - 1], s[|s| - 1];
      CutIsCut(init);
      ExtendWellCut(init, CutLines(init), c);
      assert s == init + [c];
    }
  }

  ghost predicate WellCut(s: Str, cut: Cut) {
    && Glue(cut.lines) + cut.rest == s
    && NoCrLf(cut.rest)
    && forall k | 0 <= k < |cut.lines| :: IsLine(cut.lines[k])
  }

  lemma ExtendWellCut(s: Str, cut: Cut, c: byte)
    requires WellCut(s, cut)
    ensures WellCut(s + [c], Extend(cut, c))
  {
    var rest := cut.rest;
    if EndsLine(rest, c) {
      LineClosed(cut.lines, rest);
    } else {
      NoCrLfStep(rest, c);
      Assoc(Glue(cut.lines), rest, [c]);
    }
  }

  lemma LineClosed(lines: seq<Str>, rest: Str)
    requires EndsLine(rest, LF)
    ensures var l := rest[..|rest| - 1];
      l + [CR] == rest && Glue(lines + [l]) + [] == Glue(lines) + rest + [LF]
  {
    var l := rest[..|rest| - 1];
    GlueStep(lines, l);
    assert l + [CR, LF] == rest + [LF];
    Assoc(Glue(lines), l, [CR, LF]);
    Assoc(Glue(lines), rest, [LF]);
  }

  lemma NoCrLfStep(l: Str, c: byte)
    ensures NoCrLf(l + [c]) <==> NoCrLf(l) && !EndsLine(l, c)
  {
    assert (l + [c])[..|l|] == l;
  }

  lemma GlueStep(lines: seq<Str>, l: Str)
    ensures Glue(lines + [l]) == Glue(lines) + l + [CR, LF]
  {
    assert (lines + [l])[..|lines|] == lines;
  }

  /** The lines of a stream that goes on with `more` where `cut` stopped. */
  function Then(cut: Cut, more: Cut): Cut {
    Cut(cut.lines + more.lines, more.rest)
  }

  lemma ThenExtend(cut: Cut, more: Cut, c: byte)
    ensures Then(cut, Extend(more, c)) == Extend(Then(cut, more), c)
  {
    if EndsLine(more.rest, c) {
      var l := more.rest[..|more.rest| - 1];
      assert cut.lines + (more.lines + [l]) == cut.lines + more.lines + [l];
    }
  }

  /** Cutting a stream in two places is cutting it once: only the unfinished line is carried over. */
  lemma {:induction false} CutSplit(a: Str, b: Str)
    ensures CutLines(a + b) == Then(CutLines(a), CutLines(CutLines(a).rest + b))
  {
    var rest := CutLines(a).rest;
    if b == [] {
      assert a + b == a && rest + b == rest;
      assert NoCrLf(rest) by {
        CutIsCut(a);
      }
      CutRest(rest);
    } else {
      var n := |b| - 1;
      CutSplit(a, b[..n]);
      NextCut(a, b, n);
      NextCut(rest, b, n);
      assert b[..n + 1] == b;
      ThenExtend(CutLines(a), CutLines(rest + b[..n]), b[n]);
    }
  }

  lemma {:induction false} CutRest(s: Str)
    requires NoCrLf(s)
    ensures CutLines(s) == Cut([], s)
  {
    if s != [] {
      var init, c := s[..|s| - 1], s[|s| - 1];
      assert s == init + [c];
      NoCrLfStep(init, c);
      CutRest(init);
      CutStep(init, c);
    }
  }

  /** The commands in a list of lines. */
  function Meanings(lines: seq<Str>): (r: seq<Command>)
    ensures |r| == |lines|
    ensures forall i | 0 <= i < |r| :: r[i] == Meaning(lines[i])
  {
    seq(|lines|, i requires 0 <= i < |lines| => Meaning(lines[i]))
  }

  // ---------------------------------------------------------------------------------------------
  // The table and the engine.

  const COMMAND_STATE: nat := 0
  const FIRST_ARG_STATE: nat := 1
  const SECOND_ARG_STATE: nat := 2
  const FINAL_STATE: nat := 3
  const ERROR_STATE: nat := 4

  /** Matches every octet. */
  const ANY: nat := 0x200

  datatype Action = NoAction | RestartIndex | StoreCommand | StoreFirstArg | StoreSecondArg | Complete

  datatype Transition = Transition(when: nat, dest: nat, act: Action)

  const TABLE: seq<seq<Transition>> := [
    [Transition(32, FIRST_ARG_STATE, RestartIndex),
     Transition(13, FINAL_STATE, NoAction),
     Transition(ANY, COMMAND_STATE, StoreCommand)],
    [Transition(32, SECOND_ARG_STATE, RestartIndex),
     Transition(13, FINAL_STATE, NoAction),
     Transition(ANY, FIRST_ARG_STATE, StoreFirstArg)],
    [Transition(32, ERROR_STATE, NoAction),
     Transition(13, FINAL_STATE, NoAction),
     Transition(ANY, SECOND_ARG_STATE, StoreSecondArg)],
    [Transition(10, COMMAND_STATE, Complete),
     Transition(13, FINAL_STATE, NoAction),
     Transition(ANY, ERROR_STATE, NoAction)],
    [Transition(13, FINAL_STATE, NoAction),
     Transition(ANY, ERROR_STATE, NoAction)]
  ]

  predicate Matches(t: Transition, c: byte) {
    if t.when <= 0xFF then c as int == t.when else t.when == ANY
  }

  /** The fields of the parser in the middle of a line. */
  datatype Fields = Fields(state: nat, commands: seq<Option<Str>>, index: nat)

  /** What the parser's fields must be once `line` (which has no CR LF) was fed to it. */
  function After(line: Str): Fields {
    var ws := Split(BeforeCr(line));
    var last := Min(|ws| - 1, 2);
    Fields(if CR in line then if line[|line| - 1] == CR then FINAL_STATE else ERROR_STATE
           else if |ws| > 3 then ERROR_STATE else |ws| - 1,
           [Stored(ws, 0), Stored(ws, 1), Stored(ws, 2)],
           |Kept(ws, last)|)
  }

  /** What an action does to word `i`: append while there is room, cutting at the index. */
  function StoreIn(f: Fields, i: nat, c: byte): Fields
    requires i < |f.commands|
  {
    var word := if f.commands[i].None? then [] else f.commands[i].value;
    if f.index < Cap(i) then f.(commands := f.commands[i := Some(word[..Min(f.index, |word|)] + [c])], index := f.index + 1)
    else f.(commands := f.commands[i := Some(word)])
  }

  function Effect(f: Fields, act: Action, c: byte): Fields
    requires |f.commands| == 3
  {
    match act
    case NoAction => f
    case RestartIndex => f.(index := 0)
    case StoreCommand => StoreIn(f, 0, c)
    case StoreFirstArg => StoreIn(f, 1, c)
    case StoreSecondArg => StoreIn(f, 2, c)
    case Complete => f.(commands := f.commands[0 := if f.commands[0].None? then Some([]) else f.commands[0]], index := 0)
  }

  /** Transition `i` is the first of its row that matches. */
  predicate FirstMatch(row: seq<Transition>, i: nat, c: byte) {
    i < |row| && Matches(row[i], c) && forall j | 0 <= j < i :: !Matches(row[j], c)
  }

  lemma BeforeCrStep(line: Str, c: byte)
    ensures CR in line ==> BeforeCr(line + [c]) == BeforeCr(line)
    ensures CR !in line ==> BeforeCr(line) == line && BeforeCr(line + [c]) == if c == CR then line else line + [c]
  {
    assert (line + [c])[..|line|] == line;
  }

  /** The parser's fields in the text of a line with words `ws`. */
  function Words(ws: seq<Str>): Fields
    requires ws != []
  {
    Fields(if |ws| > 3 then ERROR_STATE else |ws| - 1, [Stored(ws, 0), Stored(ws, 1), Stored(ws, 2)],
           |Kept(ws, Min(|ws| - 1, 2))|)
  }

  /** One more octet inside the current word. */
  lemma StoreStep(ws: seq<Str>, c: byte)
    requires 0 < |ws| <= 3
    ensures var i := |ws| - 1;
      StoreIn(Words(ws), i, c) == Words(ws[..i] + [ws[i] + [c]])
  {
    var i := |ws| - 1;
    var w, w' := ws[i], ws[i] + [c];
    var ws' := ws[..i] + [w'];
    assert Kept(ws', i) == if |w| < Cap(i) then Kept(ws, i) + [c] else Kept(ws, i);
    assert forall j | 0 <= j < 3 && j != i :: Stored(ws', j) == Stored(ws, j);
    assert Stored(ws, i) == if w == [] then None else Some(Kept(ws, i));
    var f, g := StoreIn(Words(ws), i, c), Words(ws');
    var word := if w == [] then [] else Kept(ws, i);
    assert word == Kept(ws, i) && word[..|word|] == word;
    assert f.commands[i] == Some(if |word| < Cap(i) then word + [c] else word);
    assert forall j | 0 <= j < 3 :: f.commands[j] == g.commands[j];
    assert f.commands == g.commands;
  }

  /** The row of each state, read as a case split on the octet. */
  lemma RowMeaning(state: nat, i: nat, c: byte)
    requires state < |TABLE| && FirstMatch(TABLE[state], i, c)
    ensures TABLE[state][i] ==
            if state == FINAL_STATE && c == LF then Transition(10, COMMAND_STATE, Complete)
            else if c == CR then Transition(13, FINAL_STATE, NoAction)
            else if state >= FINAL_STATE then Transition(ANY, ERROR_STATE, NoAction)
            else if c == SPACE then
              Transition(32, if state == 2 then ERROR_STATE else state + 1, if state == 2 then NoAction else RestartIndex)
            else Transition(ANY, state, [StoreCommand, StoreFirstArg, StoreSecondArg][state])
  {
    var row := TABLE[state];
    assert i == 0 || !Matches(row[0], c);
    assert i <= 1 || !Matches(row[1], c);
  }

  /** The result of feeding `c` in the middle of `line` through transition `i`. */
  function Fed(line: Str, i: nat, c: byte): Fields
    requires After(line).state < |TABLE| && i < |TABLE[After(line).state]|
  {
    var t := TABLE[After(line).state][i];
    Effect(After(line), t.act, c).(state := t.dest)
  }

  /** Inside the text of a line. */
  lemma FeedText(line: Str, i: nat, c: byte)
    requires CR !in line && FirstMatch(TABLE[After(line).state], i, c)
    ensures !TABLE[After(line).state][i].act.Complete? && Fed(line, i, c) == After(line + [c])
  {
    RowMeaning(After(line).state, i, c);
    BeforeCrStep(line, c);
    AfterText(line);
    if c == CR {
      assert CR in line + [c];
    } else {
      AfterText(line + [c]);
      SplitStep(line, c);
      if c == SPACE {
        SpaceStep(Split(line));
      } else if |Split(line)| <= 3 {
        StoreStep(Split(line), c);
      } else {
        LateStep(Split(line), c);
      }
    }
  }

  lemma AfterText(line: Str)
    requires CR !in line
    ensures After(line) == Words(Split(line))
  {
    BeforeCrStep(line, LF);
  }

  lemma SpaceStep(ws: seq<Str>)
    requires ws != []
    ensures Words(ws + [[]]) ==
            Words(ws).(state := if |ws| >= 3 then ERROR_STATE else |ws|, index := if |ws| >= 3 then Words(ws).index else 0)
  {
  }

  lemma LateStep(ws: seq<Str>, c: byte)
    requires |ws| > 3
    ensures Words(ws[..|ws| - 1] + [ws[|ws| - 1] + [c]]) == Words(ws)
  {
  }

  /** Behind the first CR of a line. */
  lemma FeedTail(line: Str, i: nat, c: byte)
    requires CR in line && !EndsLine(line, c) && FirstMatch(TABLE[After(line).state], i, c)
    ensures !TABLE[After(line).state][i].act.Complete? && Fed(line, i, c) == After(line + [c])
  {
    RowMeaning(After(line).state, i, c);
    BeforeCrStep(line, c);
  }

  lemma FeedEnd(line: Str, i: nat, c: byte)
    requires EndsLine(line, c) && FirstMatch(TABLE[After(line).state], i, c)
    ensures var m := Meaning(line[..|line| - 1]);
      && TABLE[After(line).state][i].act.Complete?
      && Fed(line, i, c) == Fields(COMMAND_STATE, [Some(m.name), m.arg1, m.arg2], 0)
  {
    RowMeaning(After(line).state, i, c);
    var init := line[..|line| - 1];
    BeforeCrStep(init, CR);
    assert init + [CR] == line;
  }

  /** The table does, octet by octet, what a line means. */
  lemma FeedStep(line: Str, i: nat, c: byte)
    requires NoCrLf(line) && FirstMatch(TABLE[After(line).state], i, c)
    ensures var done := TABLE[After(line).state][i].act.Complete?;
      if EndsLine(line, c) then
        var m := Meaning(line[..|line| - 1]);
        done && Fed(line, i, c) == Fields(COMMAND_STATE, [Some(m.name), m.arg1, m.arg2], 0)
      else
        !done && Fed(line, i, c) == After(line + [c]) && NoCrLf(line + [c])
  {
    if EndsLine(line, c) {
      FeedEnd(line, i, c);
    } else if CR in line {
      FeedTail(line, i, c);
    } else {
      FeedText(line, i, c);
    }
  }

  class Parser {
    var state: nat
    const commands: array<Option<Str>>
    var index: nat
    var complete: bool
    /** The unfinished line fed so far. */
    ghost var line: Str

    ghost predicate Shape()
      reads this
    {
      commands.Length == 3 && state < |TABLE|
    }

    /** The parser is in the middle of `line`. */
    ghost predicate Valid()
      reads this, commands
    {
      Shape() && !complete && NoCrLf(line) && Fields(state, commands[..], index) == After(line)
    }

    /** The parser has just completed `line`, given without its CR LF. */
    ghost predicate Completed(line: Str)
      reads this, commands
    {
      && Shape() && complete && state == COMMAND_STATE && index == 0
      && commands[..] == [Some(Meaning(line).name), Meaning(line).arg1, Meaning(line).arg2]
      && Taken() == Meaning(line)
    }

    constructor ()
      ensures Valid() && line == [] && fresh(commands)
    {
      state := COMMAND_STATE;
      commands := new Option<Str>[3](i => None);
      index := 0;
      complete := false;
      line := [];
      new;
      assert commands[..] == [None, None, None];
    }

    ghost function View(): Fields
      reads this, commands
    {
      Fields(state, commands[..], index)
    }

    /** store_command, store_first_arg, store_second_arg: append while there is room, terminating at the index. */
    method Store(i: nat, c: byte)
      requires Shape() && i < 3
      requires index <= if commands[i].None? then 0 else |commands[i].value|
      modifies this`index, commands
      ensures View() == StoreIn(old(View()), i, c)
    {
      if commands[i] == None {
        commands[i] := Some([]);
      }
      if index < Cap(i) {
        commands[i] := Some(commands[i].value[..index] + [c]);
        index := index + 1;
      }
    }

    method Act(act: Action, c: byte)
      requires Valid()
      requires act.StoreCommand? ==> state == COMMAND_STATE
      requires act.StoreFirstArg? ==> state == FIRST_ARG_STATE
      requires act.StoreSecondArg? ==> state == SECOND_ARG_STATE
      modifies this`index, this`complete, commands
      ensures View() == Effect(old(View()), act, c)
      ensures complete <==> act.Complete?
    {
      assert forall i | 0 <= i < 3 :: commands[i] == commands[..][i];
      match act {
        case NoAction =>
        case RestartIndex => index := 0;
        case StoreCommand => Store(0, c);
        case StoreFirstArg => Store(1, c);
        case StoreSecondArg => Store(2, c);
        case Complete =>
          if commands[0] == None {
            commands[0] := Some([]);
          }
          complete := true;
          index := 0;
      }
    }

    /** The scan of the state's row for the first transition that matches. */
    method Pick(c: byte) returns (i: nat)
      requires state < |TABLE|
      ensures FirstMatch(TABLE[state], i, c)
    {
      var row := TABLE[state];
      i := 0;
      assert Matches(row[|row| - 1], c);
      while !Matches(row[i], c)
        invariant 0 <= i < |row|
        invariant forall j | 0 <= j < i :: !Matches(row[j], c)
        decreases |row| - i
      {
        i := i + 1;
      }
    }

    /** One octet: the first transition that matches runs its action and gives the next state. */
    method Feed(c: byte)
      requires Valid()
      modifies this, commands
      ensures if EndsLine(old(line), c) then line == [] && Completed(old(line)[..|old(line)| - 1])
              else Valid() && line == old(line) + [c]
    {
      var i := Pick(c);
      FeedStep(line, i, c);
      RowMeaning(state, i, c);
      ghost var result := Fed(line, i, c);
      var t := TABLE[state][i];
      Act(t.act, c);
      state := t.dest;
      assert View() == result;
      line := if EndsLine(line, c) then [] else line + [c];
      assert forall j | 0 <= j < 3 :: commands[j] == commands[..][j];
    }

    /** The command the event holds. */
    function Taken(): Command
      requires Shape() && commands[0].Some?
      reads this, commands
    {
      Command(commands[0].value, commands[1], commands[2])
    }

    /** restart_tokenizer: the event is cleared for the next line. */
    method Restart()
      requires Shape() && state == COMMAND_STATE && index == 0 && line == []
      modifies this`complete, commands
      ensures Valid()
    {
      complete := false;
      var i := 0;
      while i < 3
        invariant 0 <= i <= 3 && !complete
        invariant forall j | 0 <= j < i :: commands[j] == None
      {
        commands[i] := None;
        i := i + 1;
      }
      assert commands[..] == [None, None, None];
      assert View() == After([]);
    }
  }

  /** One octet and, when it completes a line, the command taken and the event cleared. */
  method Advance(p: Parser, c: byte) returns (done: Option<Command>)
    requires p.Valid()
    modifies p, p.commands
    ensures p.Valid()
    ensures if EndsLine(old(p.line), c) then p.line == [] && done == Some(Meaning(old(p.line)[..|old(p.line)| - 1]))
            else p.line == old(p.line) + [c] && done == None
  {
    p.Feed(c);
    done := None;
    if p.complete {
      done := Some(p.Taken());
      p.Restart();
    }
  }

  lemma MeaningsAppend(lines: seq<Str>, l: Str)
    ensures Meanings(lines + [l]) == Meanings(lines) + [Meaning(l)]
  {
  }

  lemma MeaningsConcat(a: seq<Str>, b: seq<Str>)
    ensures Meanings(a + b) == Meanings(a) + Meanings(b)
  {
  }

  lemma NextCut(start: Str, chunk: Str, i: nat)
    requires i < |chunk|
    ensures CutLines(start + chunk[..i + 1]) == Extend(CutLines(start + chunk[..i]), chunk[i])
  {
    SliceStep(start, chunk, i);
    CutStep(start + chunk[..i], chunk[i]);
  }

  /** The reading loop of the server, without the handlers: one chunk is fed, each completed command taken. */
  method Tokenize(p: Parser, chunk: Str) returns (commands: seq<Command>)
    requires p.Valid()
    modifies p, p.commands
    ensures p.Valid()
    ensures commands == Meanings(CutLines(old(p.line) + chunk).lines)
    ensures p.line == CutLines(old(p.line) + chunk).rest
  {
    ghost var cut := CutLines(p.line);
    commands := [];
    CutRest(p.line);
    assert p.line + chunk[..0] == p.line;
    for i := 0 to |chunk|
      invariant p.Valid()
      invariant cut == CutLines(old(p.line) + chunk[..i])
      invariant cut.rest == p.line && commands == Meanings(cut.lines)
    {
      var done := Advance(p, chunk[i]);
      NextCut(old(p.line), chunk, i);
      if done.Some? {
        MeaningsAppend(cut.lines, cut.rest[..|cut.rest| - 1]);
        commands := commands + [done.value];
      }
      cut := Extend(cut, chunk[i]);
    }
    assert chunk[..|chunk|] == chunk;
  }

  lemma StreamStep(chunks: seq<Str>, i: nat)
    requires i < |chunks|
    ensures var before := CutLines(Flatten(chunks[..i]));
      CutLines(Flatten(chunks[..i + 1])) == Then(before, CutLines(before.rest + chunks[i]))
  {
    FlattenStep(chunks, i);
    CutSplit(Flatten(chunks[..i]), chunks[i]);
  }

  /** Any chunking of a stream yields the commands of the whole stream: those of its lines, in order. */
  method TokenizeStream(chunks: seq<Str>) returns (commands: seq<Command>, ghost rest: Str)
    ensures commands == Meanings(CutLines(Flatten(chunks)).lines)
    ensures rest == CutLines(Flatten(chunks)).rest
  {
    var p := new Parser();
    commands := [];
    ghost var cut := Cut([], []);
    for i := 0 to |chunks|
      invariant p.Valid() && fresh(p) && fresh(p.commands)
      invariant cut == CutLines(Flatten(chunks[..i]))
      invariant commands == Meanings(cut.lines) && p.line == cut.rest
    {
      StreamStep(chunks, i);
      ghost var next := CutLines(cut.rest + chunks[i]);
      MeaningsConcat(cut.lines, next.lines);
      var more := Tokenize(p, chunks[i]);
      cut := Then(cut, next);
      commands := commands + more;
    }
    assert chunks[..|chunks|] == chunks;
    rest := p.line;
  }
}
