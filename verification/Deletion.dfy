/** Which files a session removes. */
module Deletion {
  import opened Bytes
  import opened Buffers
  import opened Commands
  import opened Login
  import opened Mailbox
  import opened Maildrop
  import opened Session
  import opened SessionInvariant
  import N = Numbers
  import R = Registry
  import T = Tokenizer

  /** The files that are removed when UPDATE is entered after `log`: the marked among the messages of the last load. */
  function MarkedFiles(log: seq<Obs>): seq<Str> {
    match Scan(log)
    case None => []
    case Some(mails) => PathsOf(mails, Marks(log), |mails|)
  }

  ghost predicate Quiet(log: seq<Obs>) {
    forall k | 0 <= k < |log| :: IsQuiet(log[k])
  }

  /** UPDATE was entered at entry `k`, the marked files were removed there and then, and no other file ever was. */
  ghost predicate ErasedAt(log: seq<Obs>, k: nat) {
    && k + 2 <= |log|
    && log[k] == Arrived(Update) && log[k + 1] == Erased(MarkedFiles(log[..k]))
    && forall j | 0 <= j < |log| && j != k && j != k + 1 :: IsQuiet(log[j])
  }

  ghost predicate ErasedOnce(log: seq<Obs>) {
    exists k: nat :: ErasedAt(log, k)
  }

  predicate AfterUpdate(s: Session) {
    s.current == Some(Update) || Final(s.current)
  }

  /** What whole sessions keep about files: nothing is removed before UPDATE, and once there exactly the marked ones. */
  ghost predicate FilesOk(s: Session) {
    && BoxIs(s.core)
    && (Quiet(s.core.log) || ErasedOnce(s.core.log))
    && (Quiet(s.core.log) ==> s.current != Some(Update))
    && (!Quiet(s.core.log) ==> AfterUpdate(s))
  }

  lemma QuietKept(before: seq<Obs>, after: seq<Obs>, env: Env)
    requires Adds(before, after, env)
    ensures Quiet(after) <==> Quiet(before)
    ensures ErasedOnce(before) ==> ErasedOnce(after)
  {
    assert forall k | 0 <= k < |before| :: after[k] == before[k];
    if ErasedOnce(before) {
      var k: nat :| ErasedAt(before, k);
      assert after[..k] == before[..k];
      assert ErasedAt(after, k);
    }
  }

  lemma ArrivalAdded(log: seq<Obs>, st: State)
    requires !st.Update?
    ensures Quiet(log + [Arrived(st)]) <==> Quiet(log)
    ensures ErasedOnce(log) ==> ErasedOnce(log + [Arrived(st)])
  {
    var after := log + [Arrived(st)];
    assert forall k | 0 <= k < |log| :: after[k] == log[k];
    if ErasedOnce(log) {
      var k: nat :| ErasedAt(log, k);
      assert after[..k] == log[..k];
      assert ErasedAt(after, k);
    }
  }

  lemma TwoAppended(before: seq<Obs>, a: Obs, b: Obs)
    ensures var k, after := |before|, before + [a] + [b];
      |after| == k + 2 && after[k] == a && after[k + 1] == b && after[..k] == before
    ensures forall j | 0 <= j < |before| :: (before + [a] + [b])[j] == before[j]
  {
  }

  lemma ErasureAdded(before: seq<Obs>)
    requires Quiet(before)
    ensures var after := before + [Arrived(Update)] + [Erased(MarkedFiles(before))];
      !Quiet(after) && ErasedOnce(after)
  {
    var last := Erased(MarkedFiles(before));
    var after := before + [Arrived(Update)] + [last];
    var k := |before|;
    TwoAppended(before, Arrived(Update), last);
    assert !IsQuiet(after[k]);
    forall j | 0 <= j < |after| && j != k && j != k + 1
      ensures IsQuiet(after[j])
    {
      assert IsQuiet(before[j]);
    }
    assert ErasedAt(after, k);
  }

  /** delete_mails removes the files the history says. */
  lemma ErasedAreMarked(core: Core)
    requires BoxIs(core)
    ensures ToErase(core.box) == MarkedFiles(core.log)
  {
    if core.box.mails != [] {
      PathsOfMarks(core.box.mails, core.box.dele, Marks(core.log), |core.box.mails|);
    }
  }

  lemma NoteKeepsBox(core: Core, o: Obs)
    requires BoxIs(core) && !o.Scanned? && !o.Marked? && !o.Cleared?
    ensures BoxIs(core.(log := core.log + [o]))
  {
    HistoryStep(core.log, o);
  }

  /** Arriving somewhere else than UPDATE, or in UPDATE for the first time. */
  lemma ArriveFiles(s: Session, st: State)
    requires BoxIs(s.core) && (Quiet(s.core.log) || ErasedOnce(s.core.log))
    requires st.Update? ==> Quiet(s.core.log)
    ensures var t := Arrive(s, st);
      && BoxIs(t.core) && (Quiet(t.core.log) || ErasedOnce(t.core.log))
      && (Quiet(t.core.log) <==> Quiet(s.core.log) && !st.Update?) && t.current == s.current
  {
    var log := s.core.log;
    NoteKeepsBox(s.core, Arrived(st));
    if st.Update? {
      ErasedAreMarked(s.core);
      NoteKeepsBox(s.core.(log := log + [Arrived(st)]), Erased(ToErase(s.core.box)));
      ErasureAdded(log);
    } else if !st.WritingMail? {
      ArrivalAdded(log, st);
    }
  }

  lemma BeginFiles(s: Session)
    requires FilesOk(s)
    ensures FilesOk(Begin(s))
  {
    if s.current.None? {
      ArriveFiles(s.(current := Some(Auth)), Auth);
    }
  }

  /** The handlers remove nothing and keep the marks; out of UPDATE they lead to the end. */
  lemma ReactFiles(b: Session, e: Event)
    requires FilesOk(b) && CanReact(b, e)
    ensures var (t, next) := React(b, e);
      && BoxIs(t.core) && (Quiet(t.core.log) || ErasedOnce(t.core.log))
      && (Quiet(t.core.log) <==> Quiet(b.core.log)) && t.current == b.current
      && (b.current == Some(Update) ==> next.Done? || next.Error?)
  {
    ReactCore(b, e);
    if IsBatch(b, e) {
      BatchFiles(b, e.got.value, e.env);
    }
  }

  lemma BatchFiles(b: Session, got: Str, env: Env)
    requires FilesOk(b) && b.current.Some? && b.wb.Ok()
    ensures var q := Batch(b, got, env);
      && BoxIs(q.core) && (Quiet(q.core.log) || ErasedOnce(q.core.log))
      && (Quiet(q.core.log) <==> Quiet(b.core.log)) && Adds(b.core.log, q.core.log, env)
  {
    var cmds := T.Meanings(T.CutLines(b.line + got).lines);
    BatchKeepsMarks(Progress(b.core, b.wb, b.current.value, true, true), cmds, b.current.value, env);
    QuietKept(b.core.log, Batch(b, got, env).core.log, env);
  }

  lemma MoveFiles(b: Session, t: Session, next: State)
    requires BoxIs(t.core) && (Quiet(t.core.log) || ErasedOnce(t.core.log))
    requires b.current.Some? && !Final(b.current) && t.current == b.current
    requires Quiet(t.core.log) <==> b.current != Some(Update)
    requires b.current == Some(Update) ==> next.Done? || next.Error?
    ensures FilesOk(Finish(Jump(t, next), next))
  {
    if t.current != Some(next) {
      ArriveFiles(t.(current := Some(next)), next);
    }
  }

  lemma StepFiles(s: Session, e: Event)
    requires Enabled(s, e) && FilesOk(s)
    ensures FilesOk(Step(s, e))
  {
    BeginFiles(s);
    ReactFiles(Begin(s), e);
    var (t, next) := React(Begin(s), e);
    MoveFiles(Begin(s), t, next);
  }

  lemma {:induction false} RunFiles(states: seq<Session>, events: seq<Event>, n: nat)
    requires IsSession(states, events) && n < |states|
    ensures FilesOk(states[n])
  {
    if n == 0 {
      FreshBox(states[0].core);
    } else {
      RunFiles(states, events, n - 1);
      assert StepAt(states, events, n - 1);
      StepFiles(states[n - 1], events[n - 1]);
    }
  }

  ghost predicate HasUpdated(log: seq<Obs>) {
    exists k :: 0 <= k < |log| && log[k] == Arrived(Update)
  }

  /** Over every session: files are removed only on entering UPDATE, at most once, and exactly those of the messages of the
      last load that accepted DELEs marked and no RSET cleared; a session that never entered UPDATE, however it ended,
      removed nothing; and the mailbox fields at every moment are those of the history. */
  lemma DeletionOverSession(states: seq<Session>, events: seq<Event>, n: nat)
    requires IsSession(states, events) && n < |states|
    ensures var log := states[n].core.log;
      && (HasUpdated(log) ==> ErasedOnce(log) && AfterUpdate(states[n]))
      && (!HasUpdated(log) ==> forall k | 0 <= k < |log| :: !log[k].Erased?)
      && (states[n].current == Some(Update) ==> HasUpdated(log))
      && BoxIs(states[n].core)
  {
    RunFiles(states, events, n);
    var log := states[n].core.log;
    if ErasedOnce(log) {
      var k: nat :| ErasedAt(log, k);
      assert log[k] == Arrived(Update) && !IsQuiet(log[k]);
    }
  }

  /** RSET in any reachable session, told from its history. */
  lemma ResetOverSession(states: seq<Session>, events: seq<Event>, n: nat, c: T.Command, cur: State, env: Env)
    requires IsSession(states, events) && n < |states|
    ensures var core := states[n].core;
      && BoxOk(core.box)
      && RunHandler(Rset, c, cur, core, env).replies == [ListHeader(Announced(core.log).0, Announced(core.log).1)]
  {
    RunFiles(states, events, n);
    RunInv(states, events, n);
    ResetReply(c, cur, states[n].core, env);
  }

  // ---------------------------------------------------------------------------------------------
  // The files removed against the files chosen.

  /** The files of `chosen`, by number. */
  function FilesOf(chosen: map<nat, Str>, n: nat): seq<Str> {
    if n == 0 then [] else FilesOf(chosen, n - 1) + if n - 1 in chosen then [chosen[n - 1]] else []
  }

  /** Every mark still stands for the message it was meant for. */
  predicate MarksStand(mails: seq<Mail>, chosen: map<nat, Str>) {
    forall i | i in chosen :: i < |mails| && mails[i].path == chosen[i]
  }

  lemma {:induction false} PathsUpTo(mails: seq<Mail>, chosen: map<nat, Str>, n: nat)
    requires n <= |mails|
    ensures |PathsOf(mails, chosen.Keys, n)| == |FilesOf(chosen, n)|
    ensures PathsOf(mails, chosen.Keys, n) == FilesOf(chosen, n) <==> forall i | i in chosen && i < n :: mails[i].path == chosen[i]
  {
    if n > 0 {
      PathsUpTo(mails, chosen, n - 1);
      var a, b := PathsOf(mails, chosen.Keys, n - 1), FilesOf(chosen, n - 1);
      if n - 1 in chosen {
        assert (a + [mails[n - 1].path])[..|a|] == a && (b + [chosen[n - 1]])[..|b|] == b;
        assert (a + [mails[n - 1].path])[|a|] == mails[n - 1].path && (b + [chosen[n - 1]])[|b|] == chosen[n - 1];
      } else {
        assert a + [] == a && b + [] == b;
      }
    }
  }

  lemma {:induction false} FilesBeyond(chosen: map<nat, Str>, m: nat, n: nat)
    requires m <= n
    ensures |FilesOf(chosen, m)| <= |FilesOf(chosen, n)|
    ensures FilesOf(chosen, n) == FilesOf(chosen, m) <==> forall i | i in chosen && i < n :: i < m
  {
    if m < n {
      FilesBeyond(chosen, m, n - 1);
      assert FilesOf(chosen, n - 1) + [] == FilesOf(chosen, n - 1);
      if n - 1 in chosen {
        assert |FilesOf(chosen, n)| > |FilesOf(chosen, m)|;
      }
    } else {
      assert FilesOf(chosen, n) == FilesOf(chosen, m);
    }
  }

  /** The files removed are the files the DELEs were meant for if and only if every mark still stands for its message in the
      last load: the maildrop did not change under the session, and neither did its user. */
  lemma RemovesChosenExactly(core: Core)
    requires BoxIs(core) && Scan(core.log).Some?
    ensures MarkedFiles(core.log) == FilesOf(Chosen(core.log), MAX_MAILS) <==> MarksStand(Scan(core.log).value, Chosen(core.log))
  {
    var mails, chosen := Scan(core.log).value, Chosen(core.log);
    PathsUpTo(mails, chosen, |mails|);
    FilesBeyond(chosen, |mails|, MAX_MAILS);
    assert forall i | i in chosen :: i < MAX_MAILS;
    var paths, all := MarkedFiles(core.log), FilesOf(chosen, MAX_MAILS);
    if paths == all {
      assert |FilesOf(chosen, |mails|)| == |all|;
      EqualLengths(chosen, |mails|, MAX_MAILS);
    }
  }

  lemma {:induction false} EqualLengths(chosen: map<nat, Str>, m: nat, n: nat)
    requires m <= n && |FilesOf(chosen, m)| == |FilesOf(chosen, n)|
    ensures FilesOf(chosen, m) == FilesOf(chosen, n)
  {
    if m < n {
      FilesBeyond(chosen, m, n - 1);
      EqualLengths(chosen, m, n - 1);
      assert FilesOf(chosen, n - 1) + [] == FilesOf(chosen, n - 1);
    }
  }

  /** Every load found the same mails. */
  ghost predicate SameScans(log: seq<Obs>, mails: seq<Mail>) {
    forall k | 0 <= k < |log| && log[k].Scanned? :: log[k].mails == mails
  }

  lemma {:induction false} SameScansStand(log: seq<Obs>, mails: seq<Mail>)
    requires SameScans(log, mails)
    ensures Scan(log).Some? ==> Scan(log) == Some(mails)
    ensures MarksStand(mails, Chosen(log))
  {
    if log != [] {
      SameScansStand(log[..|log| - 1], mails);
    }
  }

  /** When every load found the same mails, RSET clears every mark and the files removed are exactly those the accepted
      DELEs since the last RSET were meant for. */
  lemma StableMaildrop(core: Core, mails: seq<Mail>)
    requires BoxIs(core) && SameScans(core.log, mails)
    ensures forall i | i in Marks(core.log) :: i < Span(core.log)
    ensures MarkedFiles(core.log) == FilesOf(Chosen(core.log), MAX_MAILS)
  {
    SameScansStand(core.log, mails);
    if Scan(core.log).Some? {
      RemovesChosenExactly(core);
    } else {
      NothingChosen(Chosen(core.log), MAX_MAILS);
    }
  }

  lemma {:induction false} NothingChosen(chosen: map<nat, Str>, n: nat)
    requires chosen.Keys == {}
    ensures FilesOf(chosen, n) == []
  {
    if n > 0 {
      NothingChosen(chosen, n - 1);
    }
  }

  /** The directories stay as they are. */
  ghost predicate StableDirectories(events: seq<Event>, env: Env) {
    forall i | 0 <= i < |events| && events[i].Readable? ::
      events[i].env.maildir == env.maildir && events[i].env.dirs == env.dirs
  }

  /** Every load that is noted found what its user's directory holds. */
  ghost predicate ScansTrue(log: seq<Obs>, env: Env) {
    forall k | 0 <= k < |log| :: IsTrue(log[k], env)
  }

  lemma StepScans(s: Session, e: Event, env: Env)
    requires Enabled(s, e) && FilesOk(s) && ScansTrue(s.core.log, env)
    requires e.Readable? ==> e.env.maildir == env.maildir && e.env.dirs == env.dirs
    ensures ScansTrue(Step(s, e).core.log, env)
  {
    hide BoxIs;
    var b := Begin(s);
    BeginFiles(s);
    assert ScansTrue(b.core.log, env);
    ReactScans(b, e, env);
    var (t, next) := React(b, e);
    MoveScans(t, next, env);
  }

  lemma ReactScans(b: Session, e: Event, env: Env)
    requires CanReact(b, e) && FilesOk(b) && ScansTrue(b.core.log, env)
    requires e.Readable? ==> e.env.maildir == env.maildir && e.env.dirs == env.dirs
    ensures var (t, next) := React(b, e); ScansTrue(t.core.log, env)
  {
    hide ScansTrue;
    hide BoxIs;
    ReactCore(b, e);
    if IsBatch(b, e) {
      BatchFiles(b, e.got.value, e.env);
      ScansAdded(b.core.log, Batch(b, e.got.value, e.env).core.log, e.env, env);
    }
  }

  lemma MoveScans(t: Session, next: State, env: Env)
    requires ScansTrue(t.core.log, env)
    ensures ScansTrue(Finish(Jump(t, next), next).core.log, env)
  {
  }

  lemma ScansAdded(before: seq<Obs>, after: seq<Obs>, here: Env, env: Env)
    requires ScansTrue(before, env) && Adds(before, after, here)
    requires here.maildir == env.maildir && here.dirs == env.dirs
    ensures ScansTrue(after, env)
  {
    forall k | 0 <= k < |after|
      ensures IsTrue(after[k], env)
    {
      if k < |before| {
        assert after[k] == before[k];
      } else {
        assert IsTrue(after[k], here);
      }
    }
  }

  /** With stable directories what a load finds depends on the user alone. */
  lemma {:induction false} RunScans(states: seq<Session>, events: seq<Event>, env: Env, n: nat)
    requires IsSession(states, events) && StableDirectories(events, env) && n < |states|
    ensures ScansTrue(states[n].core.log, env)
  {
    if n > 0 {
      RunScans(states, events, env, n - 1);
      RunFiles(states, events, n - 1);
      assert StepAt(states, events, n - 1);
      StepScans(states[n - 1], events[n - 1], env);
    }
  }

  ghost predicate OneUser(log: seq<Obs>, user: Str) {
    forall k | 0 <= k < |log| && log[k].Scanned? :: log[k].owner == user
  }

  /** So a session whose loads were all for one user, over directories that do not change, removes exactly the files its
      DELEs were meant for. */
  lemma OneUserRemovesChosen(states: seq<Session>, events: seq<Event>, env: Env, n: nat, user: Str)
    requires IsSession(states, events) && StableDirectories(events, env) && n < |states| && OneUser(states[n].core.log, user)
    ensures var log := states[n].core.log;
      && MarkedFiles(log) == FilesOf(Chosen(log), MAX_MAILS)
      && forall i | i in Marks(log) :: i < Span(log)
  {
    RunScans(states, events, env, n);
    RunFiles(states, events, n);
    var log, mails := states[n].core.log, env.Mails(Some(user));
    forall k | 0 <= k < |log| && log[k].Scanned?
      ensures log[k].mails == mails
    {
      assert IsTrue(log[k], env);
    }
    StableMaildrop(states[n].core, mails);
  }

  // ---------------------------------------------------------------------------------------------
  // A change of user.

  lemma {:induction false} FirstFile(chosen: map<nat, Str>, n: nat)
    requires chosen.Keys == {0} && n > 0
    ensures FilesOf(chosen, n) == [chosen[0]]
  {
    FilesBeyond(chosen, 1, n);
    assert FilesOf(chosen, 1) == [] + [chosen[0]];
  }

  lemma FirstPath(mails: seq<Mail>)
    requires mails != []
    ensures PathsOf(mails, {0}, |mails|) == [mails[0].path]
  {
    var chosen: map<nat, Str> := map[0 := mails[0].path];
    assert chosen.Keys == {0};
    PathsUpTo(mails, chosen, |mails|);
    FirstFile(chosen, |mails|);
  }

  const DELE_ONE := T.Command(Text("DELE"), Some(N.Decimal(1)), None)
  const STAT := T.Command(Text("STAT"), None, None)
  const QUIT := T.Command(Text("QUIT"), None, None)

  lemma LoginKeepsBox(core: Core, user: Str, pass: Str, env: Env)
    requires BoxIs(core)
    ensures var l := core.(user := Some(user), pass := Some(pass), log := core.log + [LoggedIn(user, pass, env.registry)]);
      BoxIs(l) && Marks(l.log) == Marks(core.log) && Chosen(l.log) == Chosen(core.log)
  {
    HistoryStep(core.log, LoggedIn(user, pass, env.registry));
  }

  /** One user logs in and marks message 1, which takes the batch back to AUTH. */
  lemma MarksOne(p: Progress, env: Env, user: Str, pass: Str)
    requires p.wb.Ok() && p.defined && p.local.Auth? && BoxIs(p.core) && Marks(p.core.log) == {} && BoxOk(p.core.box)
    requires R.Account(user, pass) in env.registry && env.Mails(Some(user)) != []
    ensures var q := ExecAll(p, LoginWith(user, pass) + [DELE_ONE], Auth, env);
      && q.wb.Ok() && q.defined && q.local.Auth? && BoxIs(q.core) && BoxOk(q.core.box) && Marks(q.core.log) == {0}
      && Chosen(q.core.log) == map[0 := env.Mails(Some(user))[0].path]
  {
    hide Text;
    hide Find;
    hide BoxIs;
    LoginExactly(p, user, pass, env);
    var q := ExecAll(p, LoginWith(user, pass), Auth, env);
    ExecAllSplit(p, LoginWith(user, pass), [DELE_ONE], Auth, env);
    ExecOne(q, DELE_ONE, Auth, env);
    hide ExecAll;
    LoginKeepsBox(p.core, user, pass, env);
    DeleOne(q, env);
    EmptyChoice(p.core);
  }

  lemma EmptyChoice(core: Core)
    requires BoxIs(core) && Marks(core.log) == {}
    ensures Chosen(core.log) == map[]
  {
    assert Chosen(core.log).Keys == {};
  }

  lemma DeleOne(q: Progress, env: Env)
    requires q.wb.Ok() && q.defined && q.local.Transaction? && BoxIs(q.core) && Marks(q.core.log) == {} && BoxOk(q.core.box)
    requires env.Mails(q.core.user) != []
    ensures var r := Exec(q, DELE_ONE, Auth, env);
      && r.wb.Ok() && r.defined && r.local.Auth? && BoxIs(r.core) && BoxOk(r.core.box) && Marks(r.core.log) == {0}
      && Chosen(r.core.log) == Chosen(q.core.log)[0 := env.Mails(q.core.user)[0].path]
  {
    AuthNames();
    TransactionNames();
    hide Text;
    hide Find;
    hide BoxIs;
    hide Marks;
    hide Chosen;
    hide BoxOk;
    DeleMarksItsMessage(Auth, q.core, env, 0);
    HandlerKeepsMarks(Dele, DELE_ONE, Auth, q.core, env);
    HandlerKeepsBox(Dele, DELE_ONE, Auth, q.core, env);
    DeleMarks(DELE_ONE.arg1, Auth, q.core, env);
  }

  /** Another logs in, has the mailbox loaded and quits. */
  lemma LoadsAndQuits(p: Progress, env: Env, user: Str, pass: Str)
    requires p.wb.Ok() && p.defined && p.local.Auth? && BoxIs(p.core) && BoxOk(p.core.box)
    requires R.Account(user, pass) in env.registry && env.Mails(Some(user)) != []
    ensures var q := ExecAll(p, LoginWith(user, pass) + [STAT] + [QUIT], Auth, env);
      && q.defined && q.local.Update? && BoxIs(q.core) && Scan(q.core.log) == Some(env.Mails(Some(user)))
      && Marks(q.core.log) == Marks(p.core.log) && Chosen(q.core.log) == Chosen(p.core.log)
  {
    hide Text;
    hide Find;
    hide BoxIs;
    LoginExactly(p, user, pass, env);
    var q := ExecAll(p, LoginWith(user, pass), Auth, env);
    ExecAllSplit(p, LoginWith(user, pass), [STAT], Auth, env);
    ExecAllSplit(p, LoginWith(user, pass) + [STAT], [QUIT], Auth, env);
    ExecOne(q, STAT, Auth, env);
    ExecOne(Exec(q, STAT, Auth, env), QUIT, Auth, env);
    hide ExecAll;
    LoginKeepsBox(p.core, user, pass, env);
    StatAndQuit(q, env);
  }

  lemma StatAndQuit(q: Progress, env: Env)
    requires q.wb.Ok() && q.defined && q.local.Transaction? && BoxIs(q.core) && BoxOk(q.core.box)
    requires env.Mails(q.core.user) != []
    ensures var r := Exec(Exec(q, STAT, Auth, env), QUIT, Auth, env);
      && r.defined && r.local.Update? && BoxIs(r.core) && Scan(r.core.log) == Some(env.Mails(q.core.user))
      && Marks(r.core.log) == Marks(q.core.log) && Chosen(r.core.log) == Chosen(q.core.log)
  {
    AuthNames();
    TransactionNames();
    hide Text;
    hide Find;
    hide BoxIs;
    LoadKeepsMarks(q.core, env);
    MarksSurvive(Stat, STAT, Auth, q.core, env);
    LoadedOk(q.core, env);
  }

  /** In one read: the second user's first message is removed, though it was the first user who marked one. */
  lemma SecondUserLosesMail(p: Progress, env: Env, a: Str, x: Str, b: Str, y: Str)
    requires p.wb.Ok() && p.defined && p.local.Auth? && BoxIs(p.core) && Marks(p.core.log) == {} && BoxOk(p.core.box)
    requires R.Account(a, x) in env.registry && R.Account(b, y) in env.registry
    requires env.Mails(Some(a)) != [] && env.Mails(Some(b)) != []
    ensures var q := ExecAll(p, (LoginWith(a, x) + [DELE_ONE]) + (LoginWith(b, y) + [STAT] + [QUIT]), Auth, env);
      && q.defined && q.local.Update? && BoxIs(q.core)
      && ToErase(q.core.box) == [env.Mails(Some(b))[0].path]
      && FilesOf(Chosen(q.core.log), MAX_MAILS) == [env.Mails(Some(a))[0].path]
  {
    ExecAllSplit(p, LoginWith(a, x) + [DELE_ONE], LoginWith(b, y) + [STAT] + [QUIT], Auth, env);
    MarksOne(p, env, a, x);
    LoadsAndQuits(ExecAll(p, LoginWith(a, x) + [DELE_ONE], Auth, env), env, b, y);
    var q := ExecAll(p, (LoginWith(a, x) + [DELE_ONE]) + (LoginWith(b, y) + [STAT] + [QUIT]), Auth, env);
    hide ExecAll;
    hide BoxIs;
    ErasedAreMarked(q.core);
    FirstPath(env.Mails(Some(b)));
    FirstFile(Chosen(q.core.log), MAX_MAILS);
  }
}
