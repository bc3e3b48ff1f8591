/** What STAT, LIST, RETR, DELE and RSET do and say, told from the history of the session. */
module Mailbox {
  import opened Bytes
  import opened Buffers
  import opened Numbers
  import opened Commands
  import opened Maildrop
  import T = Tokenizer

  // ---------------------------------------------------------------------------------------------
  // The history.

  /** The mails the last load found. */
  function Scan(log: seq<Obs>): Option<seq<Mail>> {
    if log == [] then None
    else
      var o := log[|log| - 1];
      if o.Scanned? then Some(o.mails) else Scan(log[..|log| - 1])
  }

  /** How many marks RSET clears: those up to the last index loaded, 0 before any load. */
  function Span(log: seq<Obs>): nat {
    if Scan(log).None? then 1 else |Scan(log).value|
  }

  /** The messages marked by the accepted DELEs that no RSET cleared. */
  function Marks(log: seq<Obs>): set<nat> {
    if log == [] then {}
    else
      var init, o := log[..|log| - 1], log[|log| - 1];
      var before := Marks(init);
      if o.Marked? then before + {o.index} else if o.Cleared? then set i | i in before && i >= Span(init) else before
  }

  /** What was marked when the last load came. */
  function MarksAtScan(log: seq<Obs>): set<nat> {
    if log == [] then {}
    else if log[|log| - 1].Scanned? then Marks(log[..|log| - 1])
    else MarksAtScan(log[..|log| - 1])
  }

  /** The file each mark was meant for: the message of that number when the DELE was accepted. */
  function Chosen(log: seq<Obs>): map<nat, Str> {
    if log == [] then map[]
    else
      var init, o := log[..|log| - 1], log[|log| - 1];
      var before := Chosen(init);
      if o.Marked? && Scan(init).Some? && o.index < |Scan(init).value| then before[o.index := Scan(init).value[o.index].path]
      else if o.Cleared? then map i | i in before && i >= Span(init) :: before[i]
      else before
  }

  lemma HistoryStep(log: seq<Obs>, o: Obs)
    ensures Scan(log + [o]) == if o.Scanned? then Some(o.mails) else Scan(log)
    ensures Marks(log + [o]) ==
            if o.Marked? then Marks(log) + {o.index}
            else if o.Cleared? then set i | i in Marks(log) && i >= Span(log)
            else Marks(log)
    ensures MarksAtScan(log + [o]) == if o.Scanned? then Marks(log) else MarksAtScan(log)
    ensures Chosen(log + [o]) ==
            if o.Marked? && Scan(log).Some? && o.index < |Scan(log).value| then
              Chosen(log)[o.index := Scan(log).value[o.index].path]
            else if o.Cleared? then map i | i in Chosen(log) && i >= Span(log) :: Chosen(log)[i]
            else Chosen(log)
  {
    assert (log + [o])[..|log|] == log;
  }

  /** The octets of the messages that `marks` leaves. */
  function Left(mails: seq<Mail>, marks: set<nat>): nat {
    SizeOf(mails, Remaining(|mails|, marks))
  }

  /** The mailbox fields are those of the history, and every mark has its file. */
  ghost predicate BoxIs(core: Core) {
    var b, log := core.box, core.log;
    && |b.dele| == MAX_MAILS && MarksAre(b.dele, Marks(log)) && Chosen(log).Keys == Marks(log)
    && match Scan(log)
       case None => b.mails == [] && b.maxIndex == 0 && b.original == 0 && Marks(log) == {}
       case Some(mails) =>
         0 < |mails| <= MAX_MAILS && b.mails == mails && b.maxIndex == |mails| - 1 && b.original == Left(mails, MarksAtScan(log))
  }

  /** The entries a command adds: nothing that removes files, and what a load notes is what is there. */
  ghost predicate Adds(before: seq<Obs>, after: seq<Obs>, env: Env) {
    before <= after && forall k | |before| <= k < |after| :: IsQuiet(after[k]) && IsTrue(after[k], env)
  }

  predicate IsQuiet(o: Obs) {
    !o.Erased? && o != Arrived(Update)
  }

  predicate IsTrue(o: Obs, env: Env) {
    o.Scanned? ==> o.mails == env.Mails(Some(o.owner))
  }

  lemma FreshBox(core: Core)
    requires core.box == Fresh() && core.log == []
    ensures BoxIs(core)
  {
  }

  lemma LoadKeepsMarks(core: Core, env: Env)
    requires BoxIs(core) && env.Mails(core.user) != []
    ensures var l := Loaded(core, env);
      && BoxIs(l) && Adds(core.log, l.log, env) && l.box.mails == env.Mails(core.user) && l.box.dele == core.box.dele
      && Marks(l.log) == Marks(core.log) && Scan(l.log) == Some(env.Mails(core.user)) && MarksAtScan(l.log) == Marks(core.log)
  {
    var mails := env.Mails(core.user);
    HistoryStep(core.log, Scanned(core.user.value, mails));
    CountersOfMarks(mails, core.box.dele, Marks(core.log), |mails|);
  }

  lemma MarkKeeps(l: Core, i: nat)
    requires BoxIs(l) && Scan(l.log).Some? && i < |Scan(l.log).value|
    ensures BoxIs(l.(box := l.box.(dele := l.box.dele[i := true]), log := l.log + [Marked(i)]))
  {
    HistoryStep(l.log, Marked(i));
  }

  lemma DeleKeepsMarks(arg: Option<Str>, cur: State, core: Core, env: Env)
    requires BoxIs(core) && Defined(Dele, core, env)
    ensures var o := RunDele(arg, cur, core, env); BoxIs(o.core) && Adds(core.log, o.core.log, env)
  {
    hide MarksAre;
    hide Chosen;
    LoadKeepsMarks(core, env);
    DeleMarks(arg, cur, core, env);
    var c := Loaded(core, env);
    if Choose(c.box, arg).Message? {
      MarkKeeps(c, Choose(c.box, arg).index);
    }
  }

  lemma RsetKeepsMarks(cur: State, core: Core)
    requires BoxIs(core) && core.box.maxIndex < MAX_MAILS
    ensures var o := RunRset(cur, core);
      && BoxIs(o.core) && o.core.log == core.log + [Cleared]
      && Marks(o.core.log) == (set i | i in Marks(core.log) && i >= Span(core.log))
  {
    HistoryStep(core.log, Cleared);
  }

  lemma PassKeepsMarks(arg: Option<Str>, core: Core, env: Env)
    requires BoxIs(core)
    ensures var o := RunPass(arg, core, env);
      BoxIs(o.core) && Adds(core.log, o.core.log, env) && Marks(o.core.log) == Marks(core.log)
  {
    if arg.Some? && core.user.Some? {
      HistoryStep(core.log, LoggedIn(core.user.value, arg.value, env.registry));
    }
  }

  /** Every command keeps the mailbox fields those of the history. */
  lemma HandlerKeepsMarks(h: Handler, c: T.Command, cur: State, core: Core, env: Env)
    requires BoxIs(core) && Defined(h, core, env)
    ensures var o := RunHandler(h, c, cur, core, env); BoxIs(o.core) && Adds(core.log, o.core.log, env)
  {
    hide BoxIs;
    hide RunList;
    hide RunRetr;
    hide RunDele;
    hide RunRset;
    hide RunPass;
    hide Load;
    if h.Dele? {
      DeleKeepsMarks(c.arg1, cur, core, env);
    } else if Loads(h) {
      ReaderKeepsMarks(h, c, cur, core, env);
    } else if h.Rset? {
      RsetKeepsMarks(cur, core);
      ClearedIsQuiet(core.log, env);
    } else if h.Pass? {
      PassKeepsMarks(c.arg1, core, env);
    } else {
      SameHistory(core, RunHandler(h, c, cur, core, env).core);
    }
  }

  lemma ClearedIsQuiet(log: seq<Obs>, env: Env)
    ensures Adds(log, log + [Cleared], env)
  {
  }

  lemma ReaderKeepsMarks(h: Handler, c: T.Command, cur: State, core: Core, env: Env)
    requires BoxIs(core) && Defined(h, core, env) && Loads(h) && !h.Dele?
    ensures var o := RunHandler(h, c, cur, core, env); BoxIs(o.core) && Adds(core.log, o.core.log, env)
  {
    LoadKeepsMarks(core, env);
    ReadersLoad(c.arg1, cur, core, env);
    var o, l := RunHandler(h, c, cur, core, env), Loaded(core, env);
    assert o.core.box == l.box && o.core.log == l.log;
    SameHistory(l, o.core);
    hide *;
  }

  lemma SameHistory(a: Core, b: Core)
    requires BoxIs(a) && a.box == b.box && a.log == b.log
    ensures BoxIs(b)
  {
  }

  /** Only DELE and RSET change marks: they survive another load and a change of user. */
  lemma MarksSurvive(h: Handler, c: T.Command, cur: State, core: Core, env: Env)
    requires BoxIs(core) && Defined(h, core, env) && !h.Dele? && !h.Rset?
    ensures var o := RunHandler(h, c, cur, core, env);
      Marks(o.core.log) == Marks(core.log) && o.core.box.dele == core.box.dele && Chosen(o.core.log) == Chosen(core.log)
  {
    if Loads(h) {
      LoadKeepsMarks(core, env);
      HistoryStep(core.log, Scanned(core.user.value, env.Mails(core.user)));
    }
    match h
    case Pass =>
      if c.arg1.Some? && core.user.Some? {
        HistoryStep(core.log, LoggedIn(core.user.value, c.arg1.value, env.registry));
      }
    case List => ReadersLoad(c.arg1, cur, core, env);
    case Retr => ReadersLoad(c.arg1, cur, core, env);
    case _ =>
  }

  lemma AddsMore(a: seq<Obs>, b: seq<Obs>, c: seq<Obs>, env: Env)
    requires Adds(a, b, env) && Adds(b, c, env)
    ensures Adds(a, c, env)
  {
    assert forall k | 0 <= k < |b| :: c[k] == b[k];
  }

  lemma {:induction false} BatchKeepsMarks(p: Progress, cmds: seq<T.Command>, cur: State, env: Env)
    requires BoxIs(p.core) && p.wb.Ok()
    ensures var q := ExecAll(p, cmds, cur, env); BoxIs(q.core) && Adds(p.core.log, q.core.log, env)
  {
    if cmds != [] {
      var init, c := cmds[..|cmds| - 1], cmds[|cmds| - 1];
      BatchKeepsMarks(p, init, cur, env);
      var q := ExecAll(p, init, cur, env);
      if Able(q, c, env) {
        HandlerKeepsMarks(Find(TableOf(q.local), c.name), c, cur, q.core, env);
        AddsMore(p.core.log, q.core.log, Exec(q, c, cur, env).core.log, env);
      }
    }
  }

  // ---------------------------------------------------------------------------------------------
  // STAT and LIST against the set of marks.

  /** The rows LIST prints: exactly the messages left, in order, under the numbers of their positions, with sizes that
      add up. */
  lemma ListedAreLeft(core: Core, mails: seq<Mail>)
    requires BoxIs(core) && |mails| <= MAX_MAILS
    ensures var left := Remaining(|mails|, Marks(core.log));
      var rows := Rows(mails, core.box.dele, |mails|);
      && |rows| == |left| && RowOctets(rows) == SizeOf(mails, left)
      && Lists(rows, mails, core.box.dele, |mails|)
    ensures forall i: nat | i < |mails| :: core.box.dele[i] <==> i !in Remaining(|mails|, Marks(core.log))
  {
    RowsAreRemaining(mails, core.box.dele, Marks(core.log));
  }

  /** STAT announces the number and the octets of the messages left; LIST announces the same and prints their rows. */
  lemma StatAndListAgree(c: T.Command, cur: State, core: Core, env: Env)
    requires BoxIs(core) && Defined(Stat, core, env) && c.arg1.None?
    ensures var mails := env.Mails(core.user);
      var left := Remaining(|mails|, Marks(core.log));
      && RunHandler(Stat, c, cur, core, env).replies == [StatLine(|left|, SizeOf(mails, left))]
      && RunHandler(List, c, cur, core, env).replies ==
         [ListHeader(|left|, SizeOf(mails, left))] + ListRows(Rows(mails, core.box.dele, |mails|)) + [LIST_END]
  {
    var mails := env.Mails(core.user);
    CountersOfMarks(mails, core.box.dele, Marks(core.log), |mails|);
  }

  // ---------------------------------------------------------------------------------------------
  // RSET.

  /** No message of `mails` is marked beyond what RSET clears. */
  predicate ClearsAll(log: seq<Obs>, mails: seq<Mail>) {
    forall i | i in Marks(log) :: i < Span(log) || i >= |mails|
  }

  /** After RSET the next STAT counts every message if and only if no message is marked beyond the last index loaded: such
      marks RSET leaves alone. Then it gives the full totals. */
  lemma StatAfterResetExactly(c: T.Command, cur: State, core: Core, env: Env)
    requires BoxIs(core) && Defined(Stat, core, env)
    ensures var reset := RunHandler(Rset, c, cur, core, env).core;
      var mails, o := env.Mails(core.user), RunHandler(Stat, c, cur, reset, env);
      && BoxIs(reset) && Defined(Stat, reset, env)
      && (o.core.box.qty == |mails| <==> ClearsAll(core.log, mails))
      && (ClearsAll(core.log, mails) ==> o.replies == [StatLine(|mails|, AllOctets(mails))])
  {
    hide StatLine;
    hide ListHeader;
    RsetKeepsMarks(cur, core);
    var reset := RunRset(cur, core).core;
    var mails, marks := env.Mails(core.user), Marks(reset.log);
    CountersOfMarks(mails, reset.box.dele, marks, |mails|);
    AllRemain(|mails|, marks);
    if ClearsAll(core.log, mails) {
      NothingMarked(mails, reset.box.dele, |mails|);
      assert mails[..|mails|] == mails;
    } else {
      var i :| i in Marks(core.log) && !(i < Span(core.log) || i >= |mails|);
      assert i in marks && i < |mails|;
    }
  }

  lemma AllRemain(n: nat, marks: set<nat>)
    ensures |Remaining(n, marks)| <= n
    ensures |Remaining(n, marks)| == n <==> forall i | i in marks :: i >= n
  {
    var all := Remaining(n, {});
    CountBelow(n);
    if forall i | i in marks :: i >= n {
      assert Remaining(n, marks) == all;
    } else {
      var i :| i in marks && i < n;
      assert Remaining(n, marks) <= all - {i};
      SubsetSize(Remaining(n, marks), all - {i});
    }
    SubsetSize(Remaining(n, marks), all);
  }

  lemma {:induction false} CountBelow(n: nat)
    ensures |Remaining(n, {})| == n
  {
    if n > 0 {
      CountBelow(n - 1);
      assert Remaining(n, {}) == Remaining(n - 1, {}) + {n - 1};
    }
  }

  lemma {:induction false} SubsetSize(a: set<nat>, b: set<nat>)
    requires a <= b
    ensures |a| <= |b|
  {
    if a != {} {
      var x :| x in a;
      SubsetSize(a - {x}, b - {x});
    }
  }

  lemma {:induction false} OctetsMarked(mails: seq<Mail>, at: seq<bool>, n: nat)
    requires n <= |mails| && n <= |at|
    ensures Octets(mails, at, n) <= AllOctets(mails[..n])
    ensures Octets(mails, at, n) == AllOctets(mails[..n]) <==> forall i | 0 <= i < n && at[i] :: mails[i].size == 0
  {
    if n > 0 {
      OctetsMarked(mails, at, n - 1);
      assert mails[..n][..n - 1] == mails[..n - 1];
    }
  }

  /** The octets left are all octets if and only if what is marked has none. */
  lemma LeftIsAll(mails: seq<Mail>, marks: set<nat>)
    ensures Left(mails, marks) == AllOctets(mails) <==> forall i | i in marks && i < |mails| :: mails[i].size == 0
  {
    var at := seq(|mails|, i requires 0 <= i < |mails| => i in marks);
    var inside := set i | i in marks && i < |mails|;
    assert Remaining(|mails|, inside) == Remaining(|mails|, marks);
    CountersOfMarks(mails, at, inside, |mails|);
    OctetsMarked(mails, at, |mails|);
    assert mails[..|mails|] == mails;
    assert forall i | i in marks && i < |mails| :: at[i];
  }

  /** RSET announces what the last load left behind: before any load one message of no octets, whatever the maildrop holds;
      afterwards all messages found then, with the octets of those that were not marked then. */
  lemma ResetReply(c: T.Command, cur: State, core: Core, env: Env)
    requires BoxIs(core) && Defined(Rset, core, env)
    ensures RunHandler(Rset, c, cur, core, env).replies ==
            [match Scan(core.log)
             case None => ListHeader(1, 0)
             case Some(mails) => ListHeader(|mails|, Left(mails, MarksAtScan(core.log)))]
  {
  }

  /** What RSET announces. */
  function Announced(log: seq<Obs>): (nat, nat) {
    match Scan(log)
    case None => (1, 0)
    case Some(mails) => (|mails|, Left(mails, MarksAtScan(log)))
  }

  /** On a maildrop that did not change since the last load: right if and only if it was never loaded and holds one empty
      message, or was loaded when nothing with octets was marked. What was marked since plays no part. */
  lemma ResetReplyExactly(log: seq<Obs>, mails: seq<Mail>)
    requires Scan(log).None? || Scan(log) == Some(mails)
    ensures Announced(log) == (|mails|, AllOctets(mails)) <==>
            match Scan(log)
            case None => |mails| == 1 && mails[0].size == 0
            case Some(_) => forall i | i in MarksAtScan(log) && i < |mails| :: mails[i].size == 0
  {
    LeftIsAll(mails, MarksAtScan(log));
    if |mails| == 1 {
      assert mails[..0] == [] && AllOctets(mails[..0]) == 0;
    }
  }

  /** A user whose first command after the login is RSET is told of one empty message, also with two messages of seven
      octets. */
  lemma ResetBeforeLoad(c: T.Command, core: Core, env: Env, a: Mail, b: Mail)
    requires BoxIs(core) && Scan(core.log).None? && core.user.Some? && env.Mails(core.user) == [a, b] && a.size == 7 && b.size == 7
    ensures Defined(Rset, core, env) && RunHandler(Rset, c, Transaction, core, env).replies == [ListHeader(1, 0)]
    ensures |env.Mails(core.user)| == 2 && AllOctets(env.Mails(core.user)) == 14
  {
    var mails := env.Mails(core.user);
    assert mails[..1] == [a] && [a][..0] == [];
    assert AllOctets([a]) == 7;
    ResetReply(c, Transaction, core, env);
  }

  /** DELE and then RSET, with nothing marked before: the reply has the full totals, though the message just marked has
      octets. */
  lemma ResetAfterDele(c: T.Command, cur: State, core: Core, env: Env, i: nat)
    requires BoxIs(core) && Defined(Dele, core, env) && Marks(core.log) == {} && i < |env.Mails(core.user)|
    ensures var mails, dele := env.Mails(core.user), RunDele(Some(Decimal(i + 1)), cur, core, env);
      && BoxIs(dele.core) && Marks(dele.core.log) == {i} && Defined(Rset, dele.core, env)
      && RunHandler(Rset, c, cur, dele.core, env).replies == [ListHeader(|mails|, AllOctets(mails))]
  {
    hide ListHeader;
    var mails, dele := env.Mails(core.user), RunDele(Some(Decimal(i + 1)), cur, core, env);
    DeleMarksItsMessage(cur, core, env, i);
    DeleKeepsMarks(Some(Decimal(i + 1)), cur, core, env);
    LoadKeepsMarks(core, env);
    HistoryStep(Loaded(core, env).log, Marked(i));
    LeftIsAll(mails, {});
    ResetReply(c, cur, dele.core, env);
  }

  // ---------------------------------------------------------------------------------------------
  // Commands with the number of a message.

  lemma ChooseByNumber(box: Box, i: nat)
    requires i <= box.maxIndex < |box.dele| && i < 0xFFFF_FFFF
    ensures Choose(box, Some(Decimal(i + 1))) == if box.dele[i] then Refused(ALREADY_DELE_MSG) else Message(i)
  {
    AtoiOfDecimal(i + 1);
  }

  /** DELE with the number LIST prints for a message marks that message, once. */
  lemma DeleMarksItsMessage(cur: State, core: Core, env: Env, i: nat)
    requires BoxIs(core) && Defined(Dele, core, env) && i < |env.Mails(core.user)|
    ensures var o := RunDele(Some(Decimal(i + 1)), cur, core, env);
      if i in Marks(core.log) then o.replies == [ALREADY_DELE_MSG] && o.core == Loaded(core, env)
      else
        && o.replies == [DELE_MSG] && Marks(o.core.log) == Marks(core.log) + {i}
        && Chosen(o.core.log) == Chosen(core.log)[i := env.Mails(core.user)[i].path]
        && o.core.log == Loaded(core, env).log + [Marked(i)]
  {
    LoadKeepsMarks(core, env);
    HistoryStep(core.log, Scanned(core.user.value, env.Mails(core.user)));
    ChooseByNumber(Loaded(core, env).box, i);
    DeleMarks(Some(Decimal(i + 1)), cur, core, env);
    HistoryStep(Loaded(core, env).log, Marked(i));
  }

  /** RETR with the number of a message selects that message and transfers it if its file opens, or says it is marked. */
  lemma RetrSelectsItsMessage(cur: State, core: Core, env: Env, i: nat)
    requires BoxIs(core) && Defined(Retr, core, env) && i < |env.Mails(core.user)|
    ensures var o, mail := RunRetr(Some(Decimal(i + 1)), cur, core, env), env.Mails(core.user)[i];
      && BoxIs(o.core) && o.core.log == Loaded(core, env).log
      && if i in Marks(core.log) then
           o.replies == [ALREADY_DELE_MSG] && o.next.Transaction? && o.core.selected == core.selected
         else
           && o.replies == [POSITIVE_MSG] && o.core.selected == i && o.core.box.mails[i] == mail
           && o.next == if mail.path in env.files then ReadingMail else Error
  {
    LoadKeepsMarks(core, env);
    ChooseByNumber(Loaded(core, env).box, i);
  }
}
