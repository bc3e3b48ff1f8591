/** Who may be past AUTH: whole runs of a session, seen through its log. */
module Login {
  import opened Bytes
  import opened Buffers
  import opened Commands
  import opened Maildrop
  import opened Session
  import opened SessionInvariant
  import T = Tokenizer
  import R = Registry

  /** An accepted PASS: the pair was in the registry of that moment. */
  predicate IsLogin(o: Obs) {
    o.LoggedIn? && R.Account(o.user, o.pass) in o.registry
  }

  /** The last login noted. */
  function LastLogin(log: seq<Obs>): Option<Obs> {
    if log == [] then None
    else if log[|log| - 1].LoggedIn? then Some(log[|log| - 1])
    else LastLogin(log[..|log| - 1])
  }

  lemma LoginStep(log: seq<Obs>, o: Obs)
    ensures LastLogin(log + [o]) == if o.LoggedIn? then Some(o) else LastLogin(log)
  {
    assert (log + [o])[..|log|] == log;
  }

  /** The last login was for the credentials the session holds, and they were registered then. */
  predicate LoginIs(core: Core) {
    var last := LastLogin(core.log);
    last.Some? && IsLogin(last.value) && core.user == Some(last.value.user) && core.pass == Some(last.value.pass)
  }

  /** Nobody logs in without a name. */
  predicate NameFirst(core: Core) {
    core.user.None? ==> LastLogin(core.log).None?
  }

  /** Between the two logs a PASS was accepted against `registry`. */
  ghost predicate NewLogin(before: seq<Obs>, after: seq<Obs>, registry: seq<R.Account>) {
    before <= after && exists k :: |before| <= k < |after| && IsLogin(after[k]) && after[k].registry == registry
  }

  // ---------------------------------------------------------------------------------------------
  // The refusal that is taken for a state.

  /** PASS before any USER, and its refusal finds no room. */
  predicate Refused(p: Progress, c: T.Command, env: Env)
    requires |p.wb.written| <= p.wb.limit
  {
    Able(p, c, env) && PassBeforeUser(Find(TableOf(p.local), c.name), c, p.core) && p.wb.Room() < |PASS_NOUSER_MSG|
  }

  predicate RefusedIn(p: Progress, cmds: seq<T.Command>, cur: State, env: Env)
    requires |p.wb.written| <= p.wb.limit
  {
    cmds != [] &&
    var init := cmds[..|cmds| - 1];
    RefusedIn(p, init, cur, env) || Refused(ExecAll(p, init, cur, env), cmds[|cmds| - 1], env)
  }

  // ---------------------------------------------------------------------------------------------
  // Commands and batches.

  /** The login commands lead past AUTH by an accepted PASS alone; the others leave credentials and logins alone. */
  lemma HandlerLogin(h: Handler, c: T.Command, cur: State, core: Core, env: Env)
    requires Defined(h, core, env) && HasTable(cur)
    ensures var o := RunHandler(h, c, cur, core, env);
      && core.log <= o.core.log && (NameFirst(core) ==> NameFirst(o.core))
      && (o.next.ReadingMail? ==> o.core.mailOpen)
      && (h.Invalid? ==> o.next == cur)
      && if h.AuthCapa? || h.User? || h.Pass? || h.AuthQuit? then
           NeedsLogin(o.next) ==> LoginIs(o.core) && NewLogin(core.log, o.core.log, env.registry)
         else LastLogin(o.core.log) == LastLogin(core.log) && o.core.user == core.user && o.core.pass == core.pass
  {
    hide RunList;
    hide RunRetr;
    hide RunDele;
    hide RunPass;
    if Loads(h) {
      LoginStep(core.log, Scanned(core.user.value, env.Mails(core.user)));
    }
    match h
    case List => ReadersLoad(c.arg1, cur, core, env);
    case Retr => ReadersLoad(c.arg1, cur, core, env);
    case Dele => DeleLogin(c.arg1, cur, core, env);
    case Rset => LoginStep(core.log, Cleared);
    case Pass => PassLogin(c.arg1, core, env);
    case _ =>
  }

  lemma DeleLogin(arg: Option<Str>, cur: State, core: Core, env: Env)
    requires Defined(Dele, core, env)
    ensures var o := RunDele(arg, cur, core, env);
      && core.log <= o.core.log && LastLogin(o.core.log) == LastLogin(core.log)
      && o.core.user == core.user && o.core.pass == core.pass && (o.next == cur || o.next.Transaction?)
  {
    var l := Loaded(core, env);
    LoginStep(core.log, Scanned(core.user.value, env.Mails(core.user)));
    DeleMarks(arg, cur, core, env);
    if Choose(l.box, arg).Message? {
      LoginStep(l.log, Marked(Choose(l.box, arg).index));
    }
  }

  lemma PassLogin(arg: Option<Str>, core: Core, env: Env)
    ensures var o := RunPass(arg, core, env);
      && core.log <= o.core.log && (NameFirst(core) ==> NameFirst(o.core))
      && (NeedsLogin(o.next) ==> LoginIs(o.core) && NewLogin(core.log, o.core.log, env.registry))
  {
    var o := RunPass(arg, core, env);
    if o.next.Transaction? {
      LoginStep(core.log, o.core.log[|core.log|]);
      assert IsLogin(o.core.log[|core.log|]);
    }
  }

  /** What a batch keeps as long as no refusal was taken for a state. */
  ghost predicate LoginOk(p: Progress, log: seq<Obs>, cur: State, env: Env) {
    && log <= p.core.log && NameFirst(p.core)
    && (NeedsLogin(p.local) ==> LoginIs(p.core) && (!NeedsLogin(cur) ==> NewLogin(log, p.core.log, env.registry)))
    && (p.local.ReadingMail? ==> p.core.mailOpen)
  }

  lemma ExecLogin(p: Progress, c: T.Command, cur: State, env: Env, log: seq<Obs>)
    requires p.wb.Ok() && HasTable(cur) && LoginOk(p, log, cur, env) && !Refused(p, c, env)
    requires cur.Transaction? ==> !p.local.Auth?
    ensures LoginOk(Exec(p, c, cur, env), log, cur, env)
  {
    if Able(p, c, env) {
      TableSeparation(p.local, c.name);
      var h := Find(TableOf(p.local), c.name);
      HandlerLogin(h, c, cur, p.core, env);
      LongerLog(log, p.core.log, Exec(p, c, cur, env).core.log, env.registry);
      LaterLogin(log, p.core.log, Exec(p, c, cur, env).core.log, env.registry);
    }
  }

  lemma LongerLog(a: seq<Obs>, b: seq<Obs>, c: seq<Obs>, registry: seq<R.Account>)
    requires b <= c
    ensures NewLogin(a, b, registry) ==> NewLogin(a, c, registry)
  {
    if NewLogin(a, b, registry) {
      var k :| |a| <= k < |b| && IsLogin(b[k]) && b[k].registry == registry;
      assert c[k] == b[k];
    }
  }

  lemma LaterLogin(a: seq<Obs>, b: seq<Obs>, c: seq<Obs>, registry: seq<R.Account>)
    requires a <= b
    ensures NewLogin(b, c, registry) ==> NewLogin(a, c, registry)
  {
  }

  lemma {:induction false} BatchLogin(p: Progress, cmds: seq<T.Command>, cur: State, env: Env)
    requires p.wb.Ok() && HasTable(cur) && p.local == cur && NameFirst(p.core) && (NeedsLogin(cur) ==> LoginIs(p.core))
    requires !RefusedIn(p, cmds, cur, env)
    ensures LoginOk(ExecAll(p, cmds, cur, env), p.core.log, cur, env)
  {
    if cmds != [] {
      var init, c := cmds[..|cmds| - 1], cmds[|cmds| - 1];
      BatchLogin(p, init, cur, env);
      BatchLocal(p, init, cur, env);
      hide LoginOk;
      ExecLogin(ExecAll(p, init, cur, env), c, cur, env, p.core.log);
    }
  }

  /** A batch that starts past AUTH stays there. */
  lemma {:induction false} BatchLocal(p: Progress, cmds: seq<T.Command>, cur: State, env: Env)
    requires p.wb.Ok() && HasTable(cur) && p.local == cur
    ensures var q := ExecAll(p, cmds, cur, env);
      && q.wb.Ok() && (cur.Transaction? ==> !q.local.Auth? && !q.local.Done?)
      && (cur.Transaction? && !q.local.Error? ==> NeedsLogin(q.local))
  {
    if cmds != [] {
      var init, c := cmds[..|cmds| - 1], cmds[|cmds| - 1];
      BatchLocal(p, init, cur, env);
      var q := ExecAll(p, init, cur, env);
      if cur.Transaction? && Able(q, c, env) {
        hide RunHandler;
        hide Find;
        TableSeparation(q.local, c.name);
        HandlerNext(Find(TableOf(q.local), c.name), c, cur, q.core, env);
      }
    }
  }

  lemma HandlerNext(h: Handler, c: T.Command, cur: State, core: Core, env: Env)
    requires Defined(h, core, env) && !h.AuthCapa? && !h.User? && !h.Pass? && !h.AuthQuit?
    ensures var next := RunHandler(h, c, cur, core, env).next;
      next == cur || next.Transaction? || next.ReadingMail? || next.Update? || next.Error?
  {
    match h
    case List => ReadersLoad(c.arg1, cur, core, env);
    case Retr => ReadersLoad(c.arg1, cur, core, env);
    case Dele => DeleMarks(c.arg1, cur, core, env);
    case _ =>
  }

  /** A refusal ends its batch: READING_MAIL is asked for, and nobody has logged in. */
  lemma {:induction false} BatchRefused(p: Progress, cmds: seq<T.Command>, cur: State, env: Env)
    requires p.wb.Ok() && HasTable(cur) && p.local == cur && NameFirst(p.core)
    requires RefusedIn(p, cmds, cur, env) && ExecAll(p, cmds, cur, env).defined
    ensures var q := ExecAll(p, cmds, cur, env);
      cur.Auth? && q.local.ReadingMail? && q.core.user.None? && LastLogin(q.core.log).None?
  {
    var init, c := cmds[..|cmds| - 1], cmds[|cmds| - 1];
    var q := ExecAll(p, init, cur, env);
    assert Able(q, c, env);
    if RefusedIn(p, init, cur, env) {
      BatchRefused(p, init, cur, env);
      assert false;
    }
    BatchName(p, init, cur, env);
    BatchLocal(p, init, cur, env);
    TableSeparation(q.local, c.name);
    assert RunPass(c.arg1, q.core, env).core == q.core;
  }

  lemma {:induction false} BatchName(p: Progress, cmds: seq<T.Command>, cur: State, env: Env)
    requires p.wb.Ok() && HasTable(cur) && NameFirst(p.core)
    ensures ExecAll(p, cmds, cur, env).wb.Ok() && NameFirst(ExecAll(p, cmds, cur, env).core)
  {
    if cmds != [] {
      var init, c := cmds[..|cmds| - 1], cmds[|cmds| - 1];
      BatchName(p, init, cur, env);
      var q := ExecAll(p, init, cur, env);
      if Able(q, c, env) {
        HandlerLogin(Find(TableOf(q.local), c.name), c, cur, q.core, env);
      }
    }
  }

  // ---------------------------------------------------------------------------------------------
  // Sessions.

  predicate PastLogin(s: Session) {
    s.current.Some? && NeedsLogin(s.current.value)
  }

  /** A refusal is taken for a state in the batch of the event. */
  predicate RefusedNow(b: Session, e: Event)
    requires |b.wb.written| <= b.wb.limit
  {
    IsBatch(b, e) &&
    RefusedIn(Progress(b.core, b.wb, b.current.value, true, true), T.Meanings(T.CutLines(b.line + e.got.value).lines),
              b.current.value, e.env)
  }

  /** What holds of a session in which no refusal was taken for a state. */
  ghost predicate Honest(s: Session) {
    && NameFirst(s.core) && (PastLogin(s) ==> LoginIs(s.core))
    && (s.mailFd.Some? ==> s.core.mailOpen)
    && (s.current == Some(ReadingMail) || s.current == Some(WritingMail) ==> s.core.mailOpen)
  }

  /** And of one in which a refusal was: past AUTH or ended, and never logged in. */
  ghost predicate Slipped(s: Session) {
    (PastLogin(s) || Final(s.current)) && s.core.user.None? && LastLogin(s.core.log).None?
  }

  lemma ReactLogin(b: Session, e: Event)
    requires Inv(b) && CanReact(b, e) && Honest(b) && !RefusedNow(b, e)
    ensures var (t, next) := React(b, e);
      && b.core.log <= t.core.log && NameFirst(t.core) && (b.core.mailOpen ==> t.core.mailOpen)
      && (NeedsLogin(next) ==> LoginIs(t.core))
      && (NeedsLogin(next) && !PastLogin(b) ==> e.Readable? && NewLogin(b.core.log, t.core.log, e.env.registry))
      && (next.ReadingMail? || next.WritingMail? ==> t.core.mailOpen)
      && (t.mailFd.Some? ==> b.mailFd.Some? || e.fd.MailFile?)
  {
    ReactCore(b, e);
    if IsBatch(b, e) {
      var cmds := T.Meanings(T.CutLines(b.line + e.got.value).lines);
      var p := Progress(b.core, b.wb, b.current.value, true, true);
      BatchLogin(p, cmds, b.current.value, e.env);
      BatchKeepsBox(p, cmds, b.current.value, e.env);
    }
  }

  lemma MoveLog(t: Session, next: State)
    requires t.current.Some?
    ensures var u := Finish(Jump(t, next), next);
      && u.current == Some(next) && t.core.log <= u.core.log && u.core.mailOpen == t.core.mailOpen
      && u.core.user == t.core.user && u.core.pass == t.core.pass && LastLogin(u.core.log) == LastLogin(t.core.log)
      && (u.mailFd.Some? ==> t.mailFd.Some? || next.ReadingMail?)
  {
    if t.current != Some(next) {
      LoginStep(t.core.log, Arrived(next));
      LoginStep(t.core.log + [Arrived(next)], Erased(ToErase(t.core.box)));
    }
  }

  lemma BeginLogin(s: Session)
    requires Inv(s)
    ensures var b := Begin(s);
      && s.core.log <= b.core.log && b.core.(log := s.core.log) == s.core && LastLogin(b.core.log) == LastLogin(s.core.log)
      && (Honest(s) ==> Honest(b)) && (Slipped(s) ==> b == s) && (PastLogin(b) <==> PastLogin(s)) && b.mailFd == s.mailFd
  {
    LoginStep(s.core.log, Arrived(Auth));
  }

  /** One event without a refusal: the states behind the login are entered only through an accepted PASS. */
  lemma StepLogin(s: Session, e: Event)
    requires Inv(s) && Enabled(s, e) && Honest(s) && !RefusedNow(Begin(s), e)
    ensures Honest(Step(s, e)) && s.core.log <= Step(s, e).core.log
    ensures PastLogin(Step(s, e)) && !PastLogin(s) ==>
              e.Readable? && NewLogin(s.core.log, Step(s, e).core.log, e.env.registry)
  {
    hide RefusedNow;
    hide NewLogin;
    hide Inv;
    BeginInv(s);
    BeginLogin(s);
    var b := Begin(s);
    ReactLogin(b, e);
    var (t, next) := React(b, e);
    ReactReacts(b, e);
    MoveLog(t, next);
    MoveHonest(t, next);
    var u := Step(s, e);
    if NeedsLogin(next) && !PastLogin(s) {
      LongerLog(b.core.log, t.core.log, u.core.log, e.env.registry);
      LaterLogin(s.core.log, b.core.log, u.core.log, e.env.registry);
    }
  }

  lemma MoveHonest(t: Session, next: State)
    requires t.current.Some? && NameFirst(t.core) && (NeedsLogin(next) ==> LoginIs(t.core))
    requires (t.mailFd.Some? ==> t.core.mailOpen) && (next.ReadingMail? || next.WritingMail? ==> t.core.mailOpen)
    ensures Honest(Finish(Jump(t, next), next))
  {
    hide ToErase;
    MoveLog(t, next);
  }

  /** An event with a refusal leads past AUTH with nobody logged in. */
  lemma StepRefused(s: Session, e: Event)
    requires Inv(s) && Enabled(s, e) && NameFirst(s.core) && RefusedNow(Begin(s), e)
    ensures Step(s, e).current == Some(ReadingMail) && Slipped(Step(s, e))
  {
    BeginInv(s);
    BeginLogin(s);
    var b := Begin(s);
    var cmds := T.Meanings(T.CutLines(b.line + e.got.value).lines);
    var p := Progress(b.core, b.wb, b.current.value, true, true);
    BatchRefused(p, cmds, b.current.value, e.env);
    ReactCore(b, e);
    var (t, next) := React(b, e);
    MoveLog(t, next);
  }

  /** From there on nobody logs in, and the session never goes back to AUTH. */
  lemma StepSlipped(s: Session, e: Event)
    requires Inv(s) && Enabled(s, e) && Slipped(s)
    ensures Slipped(Step(s, e)) && !RefusedNow(Begin(s), e)
  {
    BeginLogin(s);
    ReactCore(s, e);
    var (t, next) := React(s, e);
    MoveLog(t, next);
    if IsBatch(s, e) {
      var cmds := T.Meanings(T.CutLines(s.line + e.got.value).lines);
      SlippedBatch(Progress(s.core, s.wb, s.current.value, true, true), cmds, s.current.value, e.env);
    } else {
      ReactReacts(s, e);
    }
  }

  lemma {:induction false} SlippedBatch(p: Progress, cmds: seq<T.Command>, cur: State, env: Env)
    requires p.wb.Ok() && cur.Transaction? && p.local == cur && p.core.user.None? && LastLogin(p.core.log).None?
    ensures var q := ExecAll(p, cmds, cur, env);
      q.core.user.None? && LastLogin(q.core.log).None? && (NeedsLogin(q.local) || q.local.Error?)
    ensures !RefusedIn(p, cmds, cur, env)
  {
    BatchLocal(p, cmds, cur, env);
    if cmds != [] {
      var init, c := cmds[..|cmds| - 1], cmds[|cmds| - 1];
      SlippedBatch(p, init, cur, env);
      BatchLocal(p, init, cur, env);
      var q := ExecAll(p, init, cur, env);
      if Able(q, c, env) {
        TableSeparation(q.local, c.name);
        HandlerLogin(Find(TableOf(q.local), c.name), c, cur, q.core, env);
      }
    }
  }

  // ---------------------------------------------------------------------------------------------
  // Runs.

  /** Event `i` of the run has a refusal that is taken for a state. */
  ghost predicate RefusedAt(states: seq<Session>, events: seq<Event>, i: nat)
    requires |states| == |events| + 1 && i < |events|
  {
    var b := Begin(states[i]);
    |b.wb.written| <= b.wb.limit && RefusedNow(b, events[i])
  }

  ghost predicate NoRefusal(states: seq<Session>, events: seq<Event>, n: nat)
    requires |states| == |events| + 1 && n <= |events|
  {
    forall i: nat | i < n :: !RefusedAt(states, events, i)
  }

  /** Event `i` of the run was the one that logged in. */
  ghost predicate LoginAt(states: seq<Session>, events: seq<Event>, i: nat)
    requires i < |events| && |states| == |events| + 1
  {
    events[i].Readable? && NewLogin(states[i].core.log, states[i + 1].core.log, events[i].env.registry)
  }

  lemma {:induction false} RunLogin(states: seq<Session>, events: seq<Event>, n: nat)
    requires IsSession(states, events) && n < |states|
    ensures if NoRefusal(states, events, n) then Honest(states[n]) else Slipped(states[n])
  {
    if n > 0 {
      hide Inv;
      hide Honest;
      hide Slipped;
      hide RefusedNow;
      hide RefusedAt;
      RunLogin(states, events, n - 1);
      RunInv(states, events, n - 1);
      assert StepAt(states, events, n - 1);
      OneEvent(states, events, n - 1);
      RefusalStep(states, events, n - 1);
      hide NoRefusal;
      hide IsRun;
    }
  }

  lemma RefusalStep(states: seq<Session>, events: seq<Event>, n: nat)
    requires |states| == |events| + 1 && n < |events|
    ensures NoRefusal(states, events, n + 1) <==> NoRefusal(states, events, n) && !RefusedAt(states, events, n)
  {
    hide RefusedAt;
  }

  lemma OneEvent(states: seq<Session>, events: seq<Event>, i: nat)
    requires |states| == |events| + 1 && i < |events| && Inv(states[i]) && StepAt(states, events, i)
    ensures Honest(states[i]) ==> if RefusedAt(states, events, i) then Slipped(states[i + 1]) else Honest(states[i + 1])
    ensures Slipped(states[i]) ==> Slipped(states[i + 1])
  {
    var s, e := states[i], events[i];
    InvRoom(s);
    BeginInv(s);
    InvRoom(Begin(s));
    HonestName(s);
    hide Inv;
    hide Honest;
    hide Slipped;
    hide RefusedNow;
    if Slipped(s) {
      StepSlipped(s, e);
    }
    if Honest(s) {
      if RefusedAt(states, events, i) {
        StepRefused(s, e);
      } else {
        StepLogin(s, e);
      }
    }
  }

  lemma HonestName(s: Session)
    ensures Honest(s) ==> NameFirst(s.core)
  {
  }

  lemma LoginBetween(states: seq<Session>, events: seq<Event>, n: nat)
    requires IsSession(states, events) && 0 < n < |states| && PastLogin(states[n]) && NoRefusal(states, events, n)
    ensures PastLogin(states[n - 1]) || LoginAt(states, events, n - 1)
  {
    hide Inv;
    hide Honest;
    hide RefusedNow;
    hide NewLogin;
    hide Step;
    hide Enabled;
    hide BoxOk;
    RunLogin(states, events, n - 1);
    RunInv(states, events, n - 1);
    assert StepAt(states, events, n - 1) && !RefusedAt(states, events, n - 1);
    assert |Begin(states[n - 1]).wb.written| <= Begin(states[n - 1]).wb.limit by {
      BeginInv(states[n - 1]);
      InvRoom(Begin(states[n - 1]));
    }
    StepLogin(states[n - 1], events[n - 1]);
  }

  lemma InvRoom(s: Session)
    requires Inv(s)
    ensures |s.wb.written| <= s.wb.limit
  {
  }

  /** In every reachable session past AUTH that has not ended an earlier PASS was accepted, with a pair that was in the
      registry at that step, and the last PASS accepted was for the credentials the session holds; the one hypothesis is
      that no refusal of a PASS before USER was taken for a state. */
  lemma {:induction false} AuthenticationSafety(states: seq<Session>, events: seq<Event>, n: nat)
    requires IsSession(states, events) && n < |states| && PastLogin(states[n]) && NoRefusal(states, events, n)
    ensures exists i: nat :: i < n && LoginAt(states, events, i)
    ensures LoginIs(states[n].core)
  {
    RunLogin(states, events, n);
    if n > 0 {
      LoginBetween(states, events, n);
      hide LoginAt;
      hide RefusedAt;
      hide LoginIs;
      if PastLogin(states[n - 1]) {
        AuthenticationSafety(states, events, n - 1);
      }
    }
  }

  /** A reachable session that has not ended is past AUTH without a login exactly when such a refusal came before. */
  lemma BypassExactly(states: seq<Session>, events: seq<Event>, n: nat)
    requires IsSession(states, events) && n < |states| && !Final(states[n].current)
    ensures PastLogin(states[n]) && LastLogin(states[n].core.log).None? <==> !NoRefusal(states, events, n)
  {
    RunLogin(states, events, n);
  }

  /** The command that does it: exactly a PASS with an argument before any USER whose refusal finds no room. */
  lemma LoginBypassExactly(p: Progress, c: T.Command, env: Env)
    requires p.wb.Ok() && p.local.Auth? && Able(p, c, env) && LastLogin(p.core.log).None?
    ensures var q := Exec(p, c, Auth, env);
      NeedsLogin(q.local) && LastLogin(q.core.log).None? <==> Refused(p, c, env)
  {
    TableSeparation(Auth, c.name);
    HandlerLogin(Find(TableOf(Auth), c.name), c, Auth, p.core, env);
  }

  /** USER and PASS, one after the other, log in if and only if the pair is registered; otherwise the session stays. */
  lemma LoginExactly(p: Progress, user: Str, pass: Str, env: Env)
    requires p.wb.Ok() && p.defined && p.local.Auth? && BoxOk(p.core.box)
    ensures var q := ExecAll(p, LoginWith(user, pass), Auth, env);
      && q.defined && q.wb.Ok()
      && if R.Account(user, pass) in env.registry then
           && q.local == Transaction
           && q.core == p.core.(user := Some(user), pass := Some(pass), log := p.core.log + [LoggedIn(user, pass, env.registry)])
         else q.local == Auth && q.core == p.core.(user := Some(user))
  {
    hide Text;
    hide Find;
    var a, b := T.Command(Text("USER"), Some(user), None), T.Command(Text("PASS"), Some(pass), None);
    assert LoginWith(user, pass) == [a] + [b];
    ExecAllSplit(p, [a], [b], Auth, env);
    ExecOne(p, a, Auth, env);
    ExecOne(Exec(p, a, Auth, env), b, Auth, env);
    AuthNames();
    TransactionNames();
  }

  function LoginWith(user: Str, pass: Str): seq<T.Command> {
    [T.Command(Text("USER"), Some(user), None), T.Command(Text("PASS"), Some(pass), None)]
  }

  // ---------------------------------------------------------------------------------------------
  // No event without a handler.

  /** The handlers of the state table. */
  predicate HasHandler(st: State) {
    !st.Done? && !st.Error?
  }

  /** Whatever descriptor of a session select reports, the state the machine is then in has a handler: the engine's
      `abort` cannot be reached, unless a refusal was taken for a state. Sessions that ended have nothing registered. */
  lemma NoMissingHandler(states: seq<Session>, events: seq<Event>, n: nat, fd: Fd)
    requires IsSession(states, events) && n < |states| && NoRefusal(states, events, n)
    ensures InterestOf(states[n], fd).Some? ==> HasHandler(Begin(states[n]).current.value)
    ensures Final(states[n].current) ==> states[n].clientFd.None? && states[n].mailFd.None?
  {
    RunInv(states, events, n);
    RunLogin(states, events, n);
  }
}
