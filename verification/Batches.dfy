/** A batch against the same commands executed one by one: commands that stay return the state the machine was in when the
    batch came, not the state the batch has reached. */
module Batches {
  import opened Bytes
  import opened Buffers
  import opened Commands
  import opened Maildrop
  import opened Numbers
  import L = Login
  import R = Registry
  import T = Tokenizer

  /** Each command in the state its predecessor led to. */
  function ExecEach(p: Progress, cmds: seq<T.Command>, env: Env): (q: Progress)
    requires |p.wb.written| <= p.wb.limit
    ensures |q.wb.written| <= q.wb.limit == p.wb.limit && q.wb.read == p.wb.read && p.wb.written <= q.wb.written
  {
    if cmds == [] then p
    else
      var before := ExecEach(p, cmds[..|cmds| - 1], env);
      Exec(before, cmds[|cmds| - 1], before.local, env)
  }

  /** The command leaves the session in the state it is in. */
  predicate Stays(h: Handler, c: T.Command, core: Core, env: Env)
    requires Defined(h, core, env)
  {
    || h.Noop? || h.Rset? || h.Invalid? || (h.Retr? && c.arg1.None?)
    || (h.Dele? && (c.arg1.None? || Choose(Loaded(core, env).box, c.arg1).Message?))
  }

  lemma HandlerStays(h: Handler, c: T.Command, cur: State, other: State, core: Core, env: Env)
    requires Defined(h, core, env)
    ensures var o, u := RunHandler(h, c, cur, core, env), RunHandler(h, c, other, core, env);
      && o.core == u.core && o.replies == u.replies
      && if Stays(h, c, core, env) then o.next == cur && u.next == other else o.next == u.next
  {
    match h
    case Retr => RetrStays(c.arg1, cur, other, core, env);
    case Dele => DeleStays(c.arg1, cur, other, core, env);
    case _ =>
      hide Loaded;
      hide Choose;
      hide RunList;
  }

  lemma RetrStays(arg: Option<Str>, cur: State, other: State, core: Core, env: Env)
    requires Defined(Retr, core, env)
    ensures var o, u := RunRetr(arg, cur, core, env), RunRetr(arg, other, core, env);
      && o.core == u.core && o.replies == u.replies
      && if arg.None? then o.next == cur && u.next == other else o.next == u.next
  {
    hide Load;
  }

  lemma DeleStays(arg: Option<Str>, cur: State, other: State, core: Core, env: Env)
    requires Defined(Dele, core, env)
    ensures var o, u := RunDele(arg, cur, core, env), RunDele(arg, other, core, env);
      && o.core == u.core && o.replies == u.replies
      && if arg.None? || Choose(Loaded(core, env).box, arg).Message? then o.next == cur && u.next == other else o.next == u.next
  {
    hide Load;
  }

  /** A command that stays is met away from the state in which the batch came. */
  predicate Trapped(p: Progress, cmds: seq<T.Command>, cur: State, env: Env)
    requires |p.wb.written| <= p.wb.limit
  {
    cmds != [] &&
    var init, c := cmds[..|cmds| - 1], cmds[|cmds| - 1];
    var q := ExecAll(p, init, cur, env);
    || Trapped(p, init, cur, env)
    || (Able(q, c, env) && q.local != cur && Stays(Find(TableOf(q.local), c.name), c, q.core, env))
  }

  // ---------------------------------------------------------------------------------------------
  // Once apart, the two never meet again.

  predicate Clash(a: Str, b: Str) {
    exists k :: 0 <= k < |a| && k < |b| && a[k] != b[k]
  }

  lemma ClashStays(a: Str, b: Str, c: Str, d: Str)
    requires Clash(a, b) && a <= c && b <= d
    ensures Clash(c, d)
  {
    var k :| 0 <= k < |a| && k < |b| && a[k] != b[k];
    assert c[k] != d[k];
  }

  /** The batch is in AUTH where one by one the commands are in TRANSACTION, or the responses differ for good. */
  predicate Apart(a: Progress, b: Progress) {
    || (a.core == b.core && a.wb == b.wb && a.local.Auth? && b.local.Transaction?)
    || !b.fits || !b.defined
    || Clash(a.wb.written, b.wb.written)
  }

  /** Unlike the answer to an unknown command. */
  predicate Unlike(m: Str) {
    |m| >= 5 && (m[0] == 43 || (|m| > 5 && m[0] == 45 && m[5] != 85))
  }

  lemma Starts()
    ensures |INVALID_COMMAND_MSG| > 5 && INVALID_COMMAND_MSG[0] == 45 && INVALID_COMMAND_MSG[5] == 85
    ensures Unlike(AUTH_CAPA_MSG) && Unlike(TRANS_CAPA_MSG) && Unlike(PASS_NOUSER_MSG) && Unlike(AUTH_ERROR_MSG)
    ensures Unlike(INVALID_INDEX_MSG) && Unlike(NO_MSG_MSG) && Unlike(LOGIN_MSG) && Unlike(DELE_MSG) && Unlike(AUTH_QUIT_MSG)
    ensures Unlike(ALREADY_DELE_MSG) && Unlike(POSITIVE_MSG)
  {
    CapaLines();
  }

  lemma CapaLines()
    ensures |AUTH_CAPA_MSG| == 32 && AUTH_CAPA_MSG[0] == 43 && AUTH_CAPA_MSG[29] == 46
    ensures |TRANS_CAPA_MSG| == 68 && TRANS_CAPA_MSG[0] == 43 && TRANS_CAPA_MSG[29] == 83
  {
    var a, b := "+OK\r\nCAPA\r\nUSER\r\nPIPELINING\r\n.\r\n",
                "+OK\r\nCAPA\r\nUSER\r\nPIPELINING\r\nSTAT\r\nLIST\r\nRETR\r\nDELE\r\nRSET\r\nNOOP\r\n.\r\n";
    assert |a| == 32 && a[0] == '+' && a[29] == '.';
    assert |b| == 68 && b[0] == '+' && b[29] == 'S';
  }

  lemma Differ()
    ensures |AUTH_CAPA_MSG| > 29 && |TRANS_CAPA_MSG| > 29 && AUTH_CAPA_MSG[29] != TRANS_CAPA_MSG[29]
    ensures |AUTH_QUIT_MSG| > 3 && |POSITIVE_MSG| > 3 && AUTH_QUIT_MSG[3] != POSITIVE_MSG[3]
  {
    CapaLines();
  }

  lemma NumbersStart(a: nat, b: nat)
    ensures Unlike(StatLine(a, b)) && Unlike(ListHeader(a, b))
  {
    var ok := Text("+OK ");
    assert ok[0] == 43 && |ok| == 4;
    assert |Text("\r\n")| == 2 && |Text(" octets)\r\n")| == 10;
  }

  /** Whatever a known command says first, it is not what an unknown one gets. */
  lemma FirstReply(h: Handler, c: T.Command, cur: State, core: Core, env: Env)
    requires Defined(h, core, env) && !h.Invalid?
    ensures var r := RunHandler(h, c, cur, core, env).replies; r != [] && Unlike(r[0])
  {
    if h.AuthCapa? || h.User? || h.AuthQuit? || h.Noop? || h.TransCapa? || h.TransQuit? {
      Starts();
      return;
    }
    hide Unlike;
    hide StatLine;
    hide ListHeader;
    hide RunRetr;
    hide RunDele;
    hide RunList;
    hide RunPass;
    match h
    case Pass => PassStart(c.arg1, core, env);
    case Retr => RetrStart(c.arg1, cur, core, env);
    case Dele => DeleStart(c.arg1, cur, core, env);
    case Stat => NumbersStart(Loaded(core, env).box.qty, Loaded(core, env).box.total);
    case Rset => NumbersStart(core.box.maxIndex + 1, core.box.original);
    case List => ListStart(c.arg1, core, env);
    case _ =>
  }

  lemma PassStart(arg: Option<Str>, core: Core, env: Env)
    ensures var r := RunPass(arg, core, env).replies; r != [] && Unlike(r[0])
  {
    Starts();
    hide Unlike;
  }

  lemma RetrStart(arg: Option<Str>, cur: State, core: Core, env: Env)
    requires Defined(Retr, core, env)
    ensures var r := RunRetr(arg, cur, core, env).replies; r != [] && Unlike(r[0])
  {
    Starts();
    hide Unlike;
    hide Load;
  }

  lemma DeleStart(arg: Option<Str>, cur: State, core: Core, env: Env)
    requires Defined(Dele, core, env)
    ensures var r := RunDele(arg, cur, core, env).replies; r != [] && Unlike(r[0])
  {
    Starts();
    hide Unlike;
    hide Load;
  }

  lemma ListStart(arg: Option<Str>, core: Core, env: Env)
    requires Defined(List, core, env)
    ensures var r := RunList(arg, core, env).replies; r != [] && Unlike(r[0])
  {
    Starts();
    var b := Loaded(core, env).box;
    NumbersStart(b.qty, b.total);
    if arg.Some? {
      var n := Atoi(arg.value);
      NumbersStart(n, env.wildSize);
      if 0 < n <= |b.mails| {
        NumbersStart(n, b.mails[n - 1].size);
      }
    }
    hide Unlike;
    hide StatLine;
    hide ListHeader;
  }

  lemma {:induction false} FlattenStarts(parts: seq<Str>)
    requires parts != []
    ensures parts[0] <= Flatten(parts)
  {
    if |parts| > 1 {
      FlattenStarts(parts[..|parts| - 1]);
    } else {
      assert parts == [parts[0]];
      FlattenOne(parts[0]);
    }
  }

  /** Replies that begin apart leave write buffers that are apart. */
  lemma RepliesClash(wb: Fifo, r: seq<Str>, s: seq<Str>)
    requires |wb.written| <= wb.limit && |Flatten(r)| <= wb.Room() && |Flatten(s)| <= wb.Room()
    requires r != [] && s != [] && Clash(r[0], s[0])
    ensures Clash(SayAll(wb, r).written, SayAll(wb, s).written)
  {
    SayAllFits(wb, r);
    SayAllFits(wb, s);
    FlattenStarts(r);
    FlattenStarts(s);
    var a, b, n := Flatten(r), Flatten(s), |wb.written|;
    var k :| 0 <= k < |r[0]| && k < |s[0]| && r[0][k] != s[0][k];
    assert (wb.written + a)[n + k] == a[k] && (wb.written + b)[n + k] == b[k];
  }

  /** A name has its handlers in both tables, or in one, or in none. */
  lemma BothTables(word: Str)
    ensures var h, g := Find(TableOf(Auth), word), Find(TableOf(Transaction), word);
      || h.Invalid? || g.Invalid? || (h.AuthCapa? && g.TransCapa?) || (h.AuthQuit? && g.TransQuit?)
  {
    var a, t := TableOf(Auth), TableOf(Transaction);
    var h, g := Find(a, word), Find(t, word);
    FindIsMember(a, word);
    FindIsMember(t, word);
    FirstLetters();
    hide Find;
    hide Text;
    if !h.Invalid? && !g.Invalid? {
      var i :| 0 <= i < |a| && a[i] == CommandType(word, h);
      var j :| 0 <= j < |t| && t[j] == CommandType(word, g);
      assert word[0] == a[i].id[0] == t[j].id[0];
    }
  }

  lemma UnlikeClash(m: Str)
    requires Unlike(m)
    ensures Clash(m, INVALID_COMMAND_MSG) && Clash(INVALID_COMMAND_MSG, m)
  {
    Starts();
    var k := if m[0] == 43 then 0 else 5;
    assert m[k] != INVALID_COMMAND_MSG[k];
  }

  /** One command on the two sides of the split. */
  lemma SplitStep(a: Progress, b: Progress, c: T.Command, env: Env)
    requires a.wb.Ok() && a.core == b.core && a.wb == b.wb && a.local.Auth? && b.local.Transaction?
    requires Exec(a, c, Auth, env).fits && Exec(a, c, Auth, env).defined
    ensures Apart(Exec(a, c, Auth, env), Exec(b, c, Transaction, env))
  {
    var x, y := Exec(a, c, Auth, env), Exec(b, c, Transaction, env);
    if y.fits && y.defined {
      var h, g := Find(TableOf(Auth), c.name), Find(TableOf(Transaction), c.name);
      BothTables(c.name);
      hide Find;
      var o, u := RunHandler(h, c, Auth, a.core, env), RunHandler(g, c, Transaction, b.core, env);
      if !h.Invalid? || !g.Invalid? {
        RepliesApart(h, g, c, a.core, env);
        RepliesClash(a.wb, o.replies, u.replies);
      }
    }
  }

  lemma RepliesApart(h: Handler, g: Handler, c: T.Command, core: Core, env: Env)
    requires Defined(h, core, env) && Defined(g, core, env)
    requires (h.Invalid? && !g.Invalid?) || (!h.Invalid? && g.Invalid?)
          || (h.AuthCapa? && g.TransCapa?) || (h.AuthQuit? && g.TransQuit?)
    ensures var r, s := RunHandler(h, c, Auth, core, env).replies, RunHandler(g, c, Transaction, core, env).replies;
      r != [] && s != [] && Clash(r[0], s[0])
  {
    if h.Invalid? {
      FirstReply(g, c, Transaction, core, env);
      UnlikeClash(RunHandler(g, c, Transaction, core, env).replies[0]);
    } else if g.Invalid? {
      FirstReply(h, c, Auth, core, env);
      UnlikeClash(RunHandler(h, c, Auth, core, env).replies[0]);
    } else {
      Differ();
    }
  }

  lemma ApartStep(a: Progress, b: Progress, c: T.Command, env: Env)
    requires a.wb.Ok() && b.wb.Ok() && Apart(a, b)
    requires Exec(a, c, Auth, env).fits && Exec(a, c, Auth, env).defined
    ensures Apart(Exec(a, c, Auth, env), Exec(b, c, b.local, env))
  {
    if b.fits && b.defined {
      if Clash(a.wb.written, b.wb.written) {
        ClashStays(a.wb.written, b.wb.written, Exec(a, c, Auth, env).wb.written, Exec(b, c, b.local, env).wb.written);
      } else {
        SplitStep(a, b, c, env);
      }
    }
  }

  lemma SameStep(q: Progress, c: T.Command, cur: State, env: Env)
    requires q.wb.Ok() && HasTable(cur) && (cur.Transaction? ==> !q.local.Auth?)
    requires Exec(q, c, cur, env).fits && Exec(q, c, cur, env).defined
    ensures if q.local != cur && Stays(Find(TableOf(q.local), c.name), c, q.core, env) then
              cur.Auth? && Apart(Exec(q, c, cur, env), Exec(q, c, q.local, env))
            else Exec(q, c, cur, env) == Exec(q, c, q.local, env)
  {
    HandlerStays(Find(TableOf(q.local), c.name), c, cur, q.local, q.core, env);
    hide Find;
    hide RunHandler;
  }

  lemma {:induction false} BatchOrEach(p: Progress, cmds: seq<T.Command>, cur: State, env: Env)
    requires p.wb.Ok() && HasTable(cur) && p.local == cur
    requires ExecAll(p, cmds, cur, env).fits && ExecAll(p, cmds, cur, env).defined
    ensures var a, b := ExecAll(p, cmds, cur, env), ExecEach(p, cmds, env);
      && a.wb.Ok() && b.wb.Ok()
      && if Trapped(p, cmds, cur, env) then cur.Auth? && Apart(a, b) else a == b
  {
    if cmds != [] {
      var init, c := cmds[..|cmds| - 1], cmds[|cmds| - 1];
      var a, b := ExecAll(p, init, cur, env), ExecEach(p, init, env);
      assert a.fits && a.defined && Able(a, c, env);
      BatchOrEach(p, init, cur, env);
      if Trapped(p, init, cur, env) {
        ApartStep(a, b, c, env);
      } else {
        L.BatchLocal(p, init, cur, env);
        SameStep(a, c, cur, env);
      }
    }
  }

  /** A batch whose replies fit does and says what its commands do one by one, and ends in the same state, if and only if no
      command that stays is met after the batch has left the state it came in: that is, after a login in the middle. */
  lemma BatchAgreesExactly(p: Progress, cmds: seq<T.Command>, cur: State, env: Env)
    requires p.wb.Ok() && HasTable(cur) && p.local == cur
    requires ExecAll(p, cmds, cur, env).fits && ExecAll(p, cmds, cur, env).defined
    ensures ExecAll(p, cmds, cur, env) == ExecEach(p, cmds, env) <==> !Trapped(p, cmds, cur, env)
  {
    BatchOrEach(p, cmds, cur, env);
  }

  /** Login and then NOOP in one read: the session ends in AUTH, where one by one it would be in TRANSACTION. */
  lemma NoopAfterLogin(p: Progress, user: Str, pass: Str, env: Env)
    requires p.wb.Ok() && p.defined && p.local.Auth? && BoxOk(p.core.box) && R.Account(user, pass) in env.registry
    ensures var cmds := L.LoginWith(user, pass) + [NOOP];
      && Trapped(p, cmds, Auth, env)
      && ExecAll(p, cmds, Auth, env).defined && ExecAll(p, cmds, Auth, env).local.Auth?
      && Exec(ExecAll(p, L.LoginWith(user, pass), Auth, env), NOOP, Transaction, env).local.Transaction?
  {
    hide Text;
    hide Find;
    AuthNames();
    TransactionNames();
    L.LoginExactly(p, user, pass, env);
    var cmds := L.LoginWith(user, pass) + [NOOP];
    assert cmds[..|cmds| - 1] == L.LoginWith(user, pass);
    hide ExecAll;
    ExecAllSplit(p, L.LoginWith(user, pass), [NOOP], Auth, env);
    ExecOne(ExecAll(p, L.LoginWith(user, pass), Auth, env), NOOP, Auth, env);
  }

  const NOOP := T.Command(Text("NOOP"), None, None)
}
