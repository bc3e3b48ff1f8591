/** A session that gets past AUTH without a login, whatever the size of its buffers. */
module Bypass {
  import opened Bytes
  import opened Buffers
  import opened Commands
  import opened Login
  import opened Session
  import opened SessionInvariant
  import T = Tokenizer

  // ---------------------------------------------------------------------------------------------
  // What the client sends: blank lines that fill the write buffer with refusals, and a PASS.

  function Newlines(n: nat): Str {
    if n == 0 then [] else Newlines(n - 1) + [CR, LF]
  }

  function Blanks(n: nat): seq<Str> {
    seq(n, i => [])
  }

  const PASS_LINE: Str := [80, 65, 83, 83, 32, 120]

  const PASS_COMMAND := T.Command([80, 65, 83, 83], Some([120]), None)
  const BLANK_COMMAND := T.Command([], None, None)

  function Burst(n: nat): Str {
    Newlines(n) + PASS_LINE + [CR, LF]
  }

  lemma {:induction false} NewlinesLength(n: nat)
    ensures |Newlines(n)| == 2 * n
  {
    if n > 0 {
      NewlinesLength(n - 1);
    }
  }

  lemma CutBlank(s: Str)
    requires T.CutLines(s).rest == []
    ensures T.CutLines(s + [CR] + [LF]) == T.Cut(T.CutLines(s).lines + [[]], [])
  {
    hide T.CutLines;
    T.CutStep(s, CR);
    T.CutStep(s + [CR], LF);
  }

  lemma BlanksStep(n: nat)
    ensures Blanks(n + 1) == Blanks(n) + [[]]
  {
  }

  lemma {:induction false} CutNewlines(n: nat)
    ensures T.CutLines(Newlines(n)) == T.Cut(Blanks(n), [])
  {
    if n > 0 {
      CutNewlines(n - 1);
      CutBlank(Newlines(n - 1));
      BlanksStep(n - 1);
      NewlinesStep(n - 1);
      hide T.CutLines;
      hide Newlines;
      hide Blanks;
    }
  }

  lemma NewlinesStep(n: nat)
    ensures Newlines(n + 1) == Newlines(n) + [CR] + [LF]
  {
    assert Newlines(n) + [CR, LF] == Newlines(n) + [CR] + [LF];
  }

  lemma {:induction false} PlainIsLine(l: Str)
    requires CR !in l
    ensures T.NoCrLf(l) && T.NoCrLf(l + [CR])
  {
    if l != [] {
      var init := l[..|l| - 1];
      PlainIsLine(init);
      T.NoCrLfStep(init, l[|l| - 1]);
      assert l == init + [l[|l| - 1]];
    }
    T.NoCrLfStep(l, CR);
  }

  lemma CutBurst(n: nat)
    ensures T.CutLines(Burst(n)) == T.Cut(Blanks(n) + [PASS_LINE], [])
  {
    CutNewlines(n);
    CutPass();
    hide T.CutLines;
    hide Newlines;
    var line := PASS_LINE + [CR, LF];
    T.CutSplit(Newlines(n), line);
    assert [] + line == line && Newlines(n) + line == Burst(n);
  }

  lemma CutPass()
    ensures T.CutLines(PASS_LINE + [CR, LF]) == T.Cut([PASS_LINE], [])
  {
    PlainIsLine(PASS_LINE);
    T.CutRest(PASS_LINE + [CR]);
    T.CutStep(PASS_LINE + [CR], LF);
    hide T.CutLines;
    var line := PASS_LINE + [CR];
    assert line + [LF] == PASS_LINE + [CR, LF] && line[..|line| - 1] == PASS_LINE;
    assert [] + [PASS_LINE] == [PASS_LINE];
  }

  lemma SplitSpace(s: Str, ws: seq<Str>)
    requires T.Split(s) == ws
    ensures T.Split(s + [SPACE]) == ws + [[]]
  {
    T.SplitStep(s, SPACE);
  }

  lemma SplitOctet(s: Str, words: seq<Str>, last: Str, c: byte)
    requires T.Split(s) == words + [last] && c != SPACE
    ensures T.Split(s + [c]) == words + [last + [c]]
  {
    T.SplitStep(s, c);
    hide T.Split;
    var ws := words + [last];
    assert ws[..|words|] == words;
  }

  lemma SplitPass()
    ensures T.Split(PASS_LINE) == [PASS_COMMAND.name, [120]]
  {
    var w, none: Str := PASS_COMMAND.name, [];
    T.SplitWord(w);
    hide T.Split;
    SplitSpace(w, [w]);
    SplitOctet(w + [SPACE], [w], none, 120);
    assert w + [SPACE] + [120] == PASS_LINE;
    assert none + [120] == [120];
    assert [w] + [[120]] == [w, [120]];
  }

  lemma PassMeaning()
    ensures T.Meaning(PASS_LINE) == PASS_COMMAND && T.Meaning([]) == BLANK_COMMAND
  {
    SplitPass();
    T.BeforeCrStep(PASS_LINE, LF);
    hide T.Split;
    hide T.BeforeCr;
    var ws := [PASS_COMMAND.name, [120]];
    assert ws[0][..4] == ws[0] && ws[1][..1] == ws[1];
    BlankMeaning();
  }

  lemma BlankMeaning()
    ensures T.Meaning([]) == BLANK_COMMAND
  {
  }

  function Copies(n: nat): seq<T.Command> {
    seq(n, i => BLANK_COMMAND)
  }

  lemma BurstMeaning(n: nat)
    ensures T.Meanings(T.CutLines(Burst(n)).lines) == Copies(n) + [PASS_COMMAND]
  {
    CutBurst(n);
    PassMeaning();
    T.MeaningsAppend(Blanks(n), PASS_LINE);
    assert T.Meanings(Blanks(n)) == Copies(n);
  }

  // ---------------------------------------------------------------------------------------------
  // What the server makes of it.

  lemma NamesOfFour(i: nat)
    requires i < |TableOf(Auth)|
    ensures |TableOf(Auth)[i].id| == 4
  {
  }

  lemma BlankIsInvalid()
    ensures Find(TableOf(Auth), []) == Invalid && Find(TableOf(Auth), PASS_COMMAND.name) == Pass
  {
    FindIsMember(TableOf(Auth), []);
    if Find(TableOf(Auth), []) != Invalid {
      var i :| 0 <= i < |TableOf(Auth)| && TableOf(Auth)[i] == CommandType([], Find(TableOf(Auth), []));
      NamesOfFour(i);
    }
    AuthNames();
    TransactionNames();
    PassName();
    hide Find;
  }

  lemma PassName()
    ensures Text("PASS") == PASS_COMMAND.name
  {
  }

  lemma MessageLengths()
    ensures |INVALID_COMMAND_MSG| == 22 && |PASS_NOUSER_MSG| == 24 && |WELCOME| == 18
  {
  }

  /** Every blank line takes 22 octets of the write buffer and does nothing else. */
  lemma {:induction false} BlanksFill(p: Progress, n: nat, env: Env)
    requires p.wb.Ok() && p.defined && p.local.Auth? && BoxOk(p.core.box) && 22 * n <= p.wb.Room()
    ensures var q := ExecAll(p, Copies(n), Auth, env);
      && q.defined && q.local.Auth? && q.core == p.core && q.wb.Ok() && q.wb.Room() == p.wb.Room() - 22 * n
  {
    if n > 0 {
      BlanksFill(p, n - 1, env);
      var q := ExecAll(p, Copies(n - 1), Auth, env);
      ExecAllSplit(p, Copies(n - 1), [BLANK_COMMAND], Auth, env);
      assert Copies(n) == Copies(n - 1) + [BLANK_COMMAND];
      ExecOne(q, BLANK_COMMAND, Auth, env);
      BlankStep(q, env);
    }
  }

  lemma BlankStep(q: Progress, env: Env)
    requires q.wb.Ok() && q.defined && q.local.Auth? && BoxOk(q.core.box) && 22 <= q.wb.Room()
    ensures var r := Exec(q, BLANK_COMMAND, Auth, env);
      && r.defined && r.local.Auth? && r.core == q.core && r.wb.Ok() && r.wb.Room() == q.wb.Room() - 22
  {
    BlankIsInvalid();
    MessageLengths();
    hide Find;
    hide INVALID_COMMAND_MSG;
    FlattenOne(INVALID_COMMAND_MSG);
    SayAllFits(q.wb, [INVALID_COMMAND_MSG]);
  }

  lemma BurstRefused(p: Progress, n: nat, env: Env)
    requires p.wb.Ok() && p.defined && p.local.Auth? && BoxOk(p.core.box) && p.core.user.None?
    requires 22 * n <= p.wb.Room() < 22 * n + 22
    ensures var q := ExecAll(p, Copies(n) + [PASS_COMMAND], Auth, env);
      && q.defined && q.local.ReadingMail? && q.core == p.core && q.wb.Ok()
      && RefusedIn(p, Copies(n) + [PASS_COMMAND], Auth, env)
  {
    BlanksFill(p, n, env);
    var q, cmds := ExecAll(p, Copies(n), Auth, env), Copies(n) + [PASS_COMMAND];
    assert cmds[..|cmds| - 1] == Copies(n);
    PassRefused(q, env);
    hide Exec;
    hide Find;
  }

  lemma PassRefused(q: Progress, env: Env)
    requires q.wb.Ok() && q.defined && q.local.Auth? && BoxOk(q.core.box) && q.core.user.None? && q.wb.Room() < 22
    ensures var r := Exec(q, PASS_COMMAND, Auth, env);
      && r.defined && r.local.ReadingMail? && r.core == q.core && r.wb.Ok() && Login.Refused(q, PASS_COMMAND, env)
  {
    BlankIsInvalid();
    MessageLengths();
    hide Find;
  }

  /** How many refusals of 22 octets fill the write buffer. */
  function Fill(limit: nat): (n: nat)
    ensures 22 * n <= limit < 22 * n + 22
  {
    limit / 22
  }

  /** The welcome is sent, the burst received, and then the mail that was never opened cannot be read. */
  function Events(limit: nat, env: Env): (es: seq<Event>)
    ensures |es| == 3
  {
    [Writable(Client, Some(18), false), Readable(Client, Some(Burst(Fill(limit))), env), Readable(MailFile, None, env)]
  }

  /** AUTH, drained. */
  function Greeted(limit: nat): Session {
    New(limit, limit).(current := Some(Auth), core := New(limit, limit).core.(log := [Arrived(Auth)]), clientFd := Some(Read))
  }

  lemma Greeting(limit: nat, env: Env)
    requires limit >= MIN_BUFFER
    ensures var s, e := New(limit, limit), Events(limit, env)[0];
      Enabled(s, e) && Step(s, e) == Greeted(limit)
  {
    MessageLengths();
    hide WELCOME;
    assert [] + [Arrived(Auth)] == [Arrived(Auth)];
    assert [] + WELCOME == WELCOME;
  }

  /** The burst, as one batch. */
  lemma BurstSlips(s: Session, limit: nat, n: nat, env: Env)
    requires s == Greeted(limit) && limit >= MIN_BUFFER && 22 * n <= limit < 22 * n + 22
    ensures var q := Batch(s, Burst(n), env);
      && 0 < |Burst(n)| <= limit && q.defined && q.local.ReadingMail? && q.core == s.core && q.wb.Ok()
      && RefusedIn(Progress(s.core, s.wb, Auth, true, true), T.Meanings(T.CutLines(s.line + Burst(n)).lines), Auth, env)
  {
    NewlinesLength(n);
    assert |Burst(n)| == 2 * n + 8;
    hide Burst;
    hide Copies;
    hide T.CutLines;
    hide ExecAll;
    hide RefusedIn;
    assert s.line + Burst(n) == Burst(n);
    BurstMeaning(n);
    BurstRefused(Progress(s.core, s.wb, Auth, true, true), n, env);
  }

  lemma Slipping(limit: nat, env: Env)
    requires limit >= MIN_BUFFER
    ensures var s, e := Greeted(limit), Events(limit, env)[1];
      && Enabled(s, e) && RefusedNow(s, e)
      && var u := Step(s, e);
         u.current == Some(ReadingMail) && u.mailFd == Some(Read) && !u.core.mailOpen && LastLogin(u.core.log).None?
  {
    hide Batch;
    hide RefusedIn;
    hide Burst;
    hide Fill;
    BurstSlips(Greeted(limit), limit, Fill(limit), env);
    LoginStep([], Arrived(Auth));
    assert [] + [Arrived(Auth)] == [Arrived(Auth)];
    LoginStep([Arrived(Auth)], Arrived(ReadingMail));
  }

  lemma Ending(u: Session, limit: nat, env: Env)
    requires Inv(u) && u.current == Some(ReadingMail) && u.mailFd == Some(Read) && !u.core.mailOpen
    ensures var e := Events(limit, env)[2];
      && Enabled(u, e) && Step(u, e).current == Some(Error) && Step(u, e).mailFd == Some(Read) && !Step(u, e).done
  {
  }

  /** For buffers of every size the server can have: a reachable session is past AUTH and nobody logged in; after one more
      event it has ended without `done`, so that its connection is destroyed, with a descriptor still registered for it. */
  lemma BypassReachable(limit: nat, env: Env) returns (states: seq<Session>)
    requires limit >= MIN_BUFFER
    ensures var events := Events(limit, env);
      && IsSession(states, events) && RefusedAt(states, events, 1)
      && PastLogin(states[2]) && LastLogin(states[2].core.log).None?
      && Final(states[3].current) && !states[3].done && InterestOf(states[3], MailFile).Some?
  {
    var events, s1 := Events(limit, env), Greeted(limit);
    Greeting(limit, env);
    Slipping(limit, env);
    SlippedInv(limit, env);
    hide *;
    var s2 := Step(s1, events[1]);
    Ending(s2, limit, env);
    states := [New(limit, limit), s1, s2, Step(s2, events[2])];
    ThreeEvents(limit, env, states);
  }

  lemma SlippedInv(limit: nat, env: Env)
    requires limit >= MIN_BUFFER
    ensures Enabled(Greeted(limit), Events(limit, env)[1]) && Inv(Step(Greeted(limit), Events(limit, env)[1]))
  {
    Greeting(limit, env);
    Slipping(limit, env);
    NewInv(New(limit, limit));
    StepInv(New(limit, limit), Events(limit, env)[0]);
    hide Step;
    hide Enabled;
    hide Events;
    hide Greeted;
    StepInv(Greeted(limit), Events(limit, env)[1]);
  }

  lemma ThreeEvents(limit: nat, env: Env, states: seq<Session>)
    requires limit >= MIN_BUFFER && |states| == 4 && states[0] == New(limit, limit) && states[1] == Greeted(limit)
    requires var e := Events(limit, env)[0]; Enabled(states[0], e) && states[1] == Step(states[0], e)
    requires var e := Events(limit, env)[1]; Enabled(states[1], e) && states[2] == Step(states[1], e)
    requires var e := Events(limit, env)[2]; Enabled(states[2], e) && states[3] == Step(states[2], e)
    requires RefusedNow(states[1], Events(limit, env)[1]) && states[2].current == Some(ReadingMail)
    requires states[3].current == Some(Error) && states[3].mailFd == Some(Read) && !states[3].done
    ensures var events := Events(limit, env);
      && IsSession(states, events) && RefusedAt(states, events, 1)
      && PastLogin(states[2]) && Final(states[3].current) && !states[3].done && InterestOf(states[3], MailFile).Some?
  {
    hide RefusedNow;
    hide Step;
    hide Enabled;
    var events := Events(limit, env);
    assert StepAt(states, events, 0) && StepAt(states, events, 1) && StepAt(states, events, 2);
  }
}
