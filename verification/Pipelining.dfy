/** Pipelining (section 6.6 of RFC 2449): commands sent together do and say the same as if each had been sent on its own, and
    are answered alike unless they end the session: what is pending then is never sent. */
module Pipelining {
  import opened Bytes
  import opened Buffers
  import opened Commands
  import opened Maildrop
  import opened Session
  import opened SessionInvariant
  import T = Tokenizer

  // ---------------------------------------------------------------------------------------------
  // A batch whose replies all fit does not depend on the write buffer.

  /** What one command says. */
  function Said(p: Progress, c: T.Command, cur: State, env: Env): Str {
    if Able(p, c, env) then Flatten(RunHandler(Find(TableOf(p.local), c.name), c, cur, p.core, env).replies) else []
  }

  /** Two batches at the same point; the second has no less room. */
  ghost predicate Alike(p: Progress, q: Progress) {
    && p.wb.Ok() && q.wb.Ok() && p.wb.limit == q.wb.limit
    && p.core == q.core && p.local == q.local && p.defined == q.defined && p.fits && q.fits
    && p.wb.Room() <= q.wb.Room()
  }

  lemma ExecAlike(p: Progress, q: Progress, c: T.Command, cur: State, env: Env)
    requires Alike(p, q) && Exec(p, c, cur, env).fits
    ensures Alike(Exec(p, c, cur, env), Exec(q, c, cur, env))
    ensures Exec(p, c, cur, env).wb == p.wb.Fill(Said(p, c, cur, env))
    ensures Exec(q, c, cur, env).wb == q.wb.Fill(Said(p, c, cur, env))
  {
    if Able(p, c, env) {
      var h := Find(TableOf(p.local), c.name);
      var o := RunHandler(h, c, cur, p.core, env);
      SayAllFits(p.wb, o.replies);
      SayAllFits(q.wb, o.replies);
      if PassBeforeUser(h, c, p.core) {
        FlattenOne(PASS_NOUSER_MSG);
      }
    } else {
      assert p.wb.written + [] == p.wb.written && q.wb.written + [] == q.wb.written;
    }
  }

  /** What a batch says. */
  function SaidAll(p: Progress, cmds: seq<T.Command>, cur: State, env: Env): Str
    requires |p.wb.written| <= p.wb.limit
  {
    if cmds == [] then []
    else
      var init := cmds[..|cmds| - 1];
      SaidAll(p, init, cur, env) + Said(ExecAll(p, init, cur, env), cmds[|cmds| - 1], cur, env)
  }

  lemma {:induction false} BatchAlike(p: Progress, q: Progress, cmds: seq<T.Command>, cur: State, env: Env)
    requires Alike(p, q) && ExecAll(p, cmds, cur, env).fits
    ensures Alike(ExecAll(p, cmds, cur, env), ExecAll(q, cmds, cur, env))
    ensures ExecAll(p, cmds, cur, env).wb == p.wb.Fill(SaidAll(p, cmds, cur, env))
    ensures ExecAll(q, cmds, cur, env).wb == q.wb.Fill(SaidAll(p, cmds, cur, env))
  {
    if cmds == [] {
      assert p.wb.written + [] == p.wb.written && q.wb.written + [] == q.wb.written;
    } else {
      var init, c := cmds[..|cmds| - 1], cmds[|cmds| - 1];
      BatchAlike(p, q, init, cur, env);
      var p', q' := ExecAll(p, init, cur, env), ExecAll(q, init, cur, env);
      ExecAlike(p', q', c, cur, env);
      FillTwice(p.wb, SaidAll(p, init, cur, env), Said(p', c, cur, env));
      FillTwice(q.wb, SaidAll(p, init, cur, env), Said(p', c, cur, env));
    }
  }

  /** A prefix of a batch that fits and is defined fits and is defined. */
  lemma {:induction false} EarlierFits(p: Progress, cmds: seq<T.Command>, cur: State, env: Env)
    requires p.wb.Ok()
    ensures ExecAll(p, cmds, cur, env).fits ==> p.fits
    ensures ExecAll(p, cmds, cur, env).defined ==> p.defined
  {
    if cmds != [] {
      EarlierFits(p, cmds[..|cmds| - 1], cur, env);
    }
  }

  // ---------------------------------------------------------------------------------------------
  // The run that delivers the octets piecemeal.

  /** The session of `s` after all of `received` came in one batch. */
  function Start(s: Session): Progress
    requires s.current.Some?
  {
    Progress(s.core, s.wb, s.current.value, true, true)
  }

  /** Receiving more continues the batch: the commands completed before and those completed now. */
  lemma BatchContinues(s: Session, a: Str, b: Str, env: Env)
    requires s.current.Some? && s.wb.Ok()
    ensures var rest := T.CutLines(s.line + a).rest;
      var more := T.Meanings(T.CutLines(rest + b).lines);
      && Batch(s, a + b, env) == ExecAll(Batch(s, a, env), more, s.current.value, env)
      && T.CutLines(s.line + (a + b)).rest == T.CutLines(rest + b).rest
  {
    T.CutSplit(s.line + a, b);
    assert s.line + (a + b) == s.line + a + b;
    var first, more := T.CutLines(s.line + a), T.CutLines(T.CutLines(s.line + a).rest + b);
    T.MeaningsConcat(first.lines, more.lines);
    ExecAllSplit(Start(s), T.Meanings(first.lines), T.Meanings(more.lines), s.current.value, env);
  }

  /** `t` is where the piecemeal delivery of `received` from `s` has come to, `sent` being on the wire already. */
  ghost predicate Caught(s: Session, t: Session, received: Str, sent: Str, env: Env)
    requires s.current.Some? && s.wb.Ok()
  {
    var q := Batch(s, received, env);
    && t.current == s.current && Some(q.local) == s.current
    && t.core == q.core && t.line == T.CutLines(s.line + received).rest
    && t.wb.Ok() && t.wb.limit == s.wb.limit && q.wb.Ok() && q.wb.Room() <= t.wb.Room()
    && sent + t.wb.Unread() == q.wb.Unread()
  }

  /** What both ways of delivery must agree on: the state, the half-read line, everything commands change, and the
      responses in order. */
  ghost predicate Same(one: Session, t: Session, sent: Str) {
    && t.current == one.current && t.line == one.line && t.core == one.core
    && one.wb.Ok() && t.wb.Ok() && sent + t.wb.Unread() == one.wb.Unread()
  }

  /** The session that received everything in one `recv`. */
  ghost function AtOnce(s: Session, received: Str, env: Env): Session
    requires s.current.Some? && s.wb.Ok()
  {
    var (t, next) := ClientRead(s, Client, Some(received), env);
    Finish(Jump(t, next), next)
  }

  /** The rest of a batch, executed on what the piecemeal delivery has. */
  lemma BatchCatchesUp(s: Session, t: Session, received: Str, sent: Str, got: Str, env: Env)
    requires s.current.Some? && HasTable(s.current.value) && s.wb.Ok() && Caught(s, t, received, sent, env)
    requires Batch(s, received + got, env).fits && Batch(s, received + got, env).defined
    ensures var one, u := Batch(s, received + got, env), Batch(t, got, env);
      && u.core == one.core && u.local == one.local && u.defined
      && one.wb.Ok() && u.wb.Ok() && one.wb.Room() <= u.wb.Room() && u.wb.limit == one.wb.limit
      && sent + u.wb.Unread() == one.wb.Unread()
    ensures T.CutLines(s.line + (received + got)).rest == T.CutLines(t.line + got).rest
  {
    BatchContinues(s, received, got, env);
    var p := Batch(s, received, env);
    var more := T.Meanings(T.CutLines(t.line + got).lines);
    var cur := s.current.value;
    EarlierFits(p, more, cur, env);
    BatchAlike(p, Start(t), more, cur, env);
    var said := SaidAll(p, more, cur, env);
    FillBoth(p.wb, t.wb, sent, said);
  }

  lemma FillBoth(f: Fifo, g: Fifo, sent: Str, said: Str)
    requires f.Ok() && g.Ok() && sent + g.Unread() == f.Unread()
    ensures sent + g.Fill(said).Unread() == f.Fill(said).Unread()
  {
    FillTwice(f, said, []);
    FillTwice(g, said, []);
    assert sent + (g.Unread() + said) == (sent + g.Unread()) + said;
  }

  lemma ReadCatchesUp(s: Session, t: Session, received: Str, sent: Str, got: Str, env: Env)
    requires s.current.Some? && HasTable(s.current.value) && s.wb.Ok() && Caught(s, t, received, sent, env)
    requires Batch(s, received + got, env).fits && Batch(s, received + got, env).defined
    ensures var (one, next1) := ClientRead(s, Client, Some(received + got), env);
      var (u, next) := ClientRead(t, Client, Some(got), env);
      && next == next1 && u.core == one.core && u.line == one.line && u.current == one.current
      && one.wb.Ok() && u.wb.Ok() && one.wb.Room() <= u.wb.Room() && u.wb.limit == s.wb.limit
      && sent + u.wb.Unread() == one.wb.Unread()
  {
    BatchCatchesUp(s, t, received, sent, got, env);
  }

  lemma MoveSame(one: Session, u: Session, next: State, sent: Str)
    requires u.core == one.core && u.line == one.line && u.current == one.current && u.current.Some?
    requires one.wb.Ok() && u.wb.Ok() && sent + u.wb.Unread() == one.wb.Unread()
    requires next.Auth? ==> u.current == Some(Auth)
    ensures Same(Finish(Jump(one, next), next), Finish(Jump(u, next), next), sent)
  {
  }

  // ---------------------------------------------------------------------------------------------
  // Whole deliveries.

  /** Only the client's descriptor has events: octets arrive and responses leave, in any interleaving. */
  ghost predicate Piecemeal(events: seq<Event>, env: Env) {
    forall i | 0 <= i < |events| ::
      events[i].fd.Client? && match events[i]
                              case Readable(_, got, e) => got.Some? && e == env
                              case Writable(_, sent, _) => sent.Some?
  }

  /** The octets received by the first `n` events. */
  function Received(events: seq<Event>, n: nat): Str
    requires n <= |events|
  {
    if n == 0 then []
    else
      var e := events[n - 1];
      Received(events, n - 1) + if e.Readable? && e.got.Some? then e.got.value else []
  }

  lemma {:induction false} ReceivedGrows(events: seq<Event>, n: nat, m: nat)
    requires n <= m <= |events|
    ensures Received(events, n) <= Received(events, m)
  {
    if n < m {
      ReceivedGrows(events, n, m - 1);
    }
  }

  /** What fits and is defined as a whole fits and is defined so far. */
  lemma PrefixFits(s: Session, a: Str, whole: Str, env: Env)
    requires s.current.Some? && s.wb.Ok() && a <= whole
    requires Batch(s, whole, env).fits && Batch(s, whole, env).defined
    ensures Batch(s, a, env).fits && Batch(s, a, env).defined
  {
    var b := whole[|a|..];
    assert whole == a + b;
    BatchContinues(s, a, b, env);
    EarlierFits(Batch(s, a, env), T.Meanings(T.CutLines(T.CutLines(s.line + a).rest + b).lines), s.current.value, env);
  }

  lemma WriteCatchesUp(s: Session, t: Session, received: Str, sent: Str, e: Event, env: Env)
    requires s.current.Some? && HasTable(s.current.value) && s.wb.Ok() && Caught(s, t, received, sent, env)
    requires e.Writable? && e.fd.Client? && e.sent.Some? && Enabled(t, e)
    ensures Caught(s, Step(t, e), received, sent + SentBy(t, e), env)
  {
    var n := e.sent.value;
    var u := t.wb.Take(n);
    assert sent + t.wb.Unread()[..n] + u.Unread() == sent + (t.wb.Unread()[..n] + u.Unread());
    assert t.wb.Unread()[..n] + u.Unread() == t.wb.Unread();
  }

  lemma ReadStays(s: Session, t: Session, received: Str, sent: Str, got: Str, env: Env)
    requires s.current.Some? && HasTable(s.current.value) && s.wb.Ok() && Caught(s, t, received, sent, env)
    requires Batch(s, received + got, env).fits && Batch(s, received + got, env).defined
    requires var (u, next) := ClientRead(t, Client, Some(got), env); Some(next) == s.current
    ensures var (u, next) := ClientRead(t, Client, Some(got), env);
      && Finish(Jump(u, next), next) == u
      && Caught(s, u, received + got, sent, env)
  {
    ReadCatchesUp(s, t, received, sent, got, env);
  }

  /** One more event of the piecemeal delivery, which stays in the state. */
  lemma EventCatchesUp(s: Session, t: Session, received: Str, sent: Str, e: Event, env: Env, received': Str)
    requires s.current.Some? && HasTable(s.current.value) && s.wb.Ok() && Caught(s, t, received, sent, env)
    requires Piecemeal([e], env) && Enabled(t, e) && Step(t, e).current == s.current
    requires received' == received + if e.Readable? then e.got.value else []
    requires Batch(s, received', env).fits && Batch(s, received', env).defined
    ensures Caught(s, Step(t, e), received', sent + SentBy(t, e), env)
  {
    hide Batch;
    assert [e][0] == e;
    if e.Readable? {
      ReadStays(s, t, received, sent, e.got.value, env);
      assert sent + [] == sent;
    } else {
      assert received + [] == received;
      WriteCatchesUp(s, t, received, sent, e, env);
    }
  }

  /** A delivery of `whole` octets of which no piece before event `last` changes the state. */
  ghost predicate Delivery(states: seq<Session>, events: seq<Event>, env: Env, last: nat) {
    && IsRun(states, events) && Piecemeal(events, env) && last < |events|
    && Inv(states[0]) && states[0].current.Some? && HasTable(states[0].current.value)
    && forall i | 0 <= i <= last :: states[i].current == states[0].current
  }

  /** Its responses fit and are determined, as a whole. */
  ghost predicate Sound(s: Session, whole: Str, env: Env) {
    s.current.Some? && s.wb.Ok() && Batch(s, whole, env).fits && Batch(s, whole, env).defined
  }

  /** How far the first `n` events of the delivery have come. */
  ghost predicate CaughtAt(states: seq<Session>, events: seq<Event>, env: Env, n: nat)
    requires IsRun(states, events) && n <= |events| && states[0].current.Some? && states[0].wb.Ok()
  {
    Caught(states[0], states[n], Received(events, n), SentIn(states, events, n), env)
  }

  lemma DeliveryStep(states: seq<Session>, events: seq<Event>, env: Env, last: nat, n: nat)
    requires Delivery(states, events, env, last) && 0 < n <= last && Sound(states[0], Received(events, last + 1), env)
    requires CaughtAt(states, events, env, n - 1)
    ensures CaughtAt(states, events, env, n)
  {
    hide Batch;
    hide Caught;
    hide Inv;
    hide Step;
    ReceivedGrows(events, n, last + 1);
    PrefixFits(states[0], Received(events, n), Received(events, last + 1), env);
    assert StepAt(states, events, n - 1);
    var e := events[n - 1];
    assert e == [e][0];
    EventCatchesUp(states[0], states[n - 1], Received(events, n - 1), SentIn(states, events, n - 1), e, env, Received(events, n));
    assert SentIn(states, events, n) == SentIn(states, events, n - 1) + SentBy(states[n - 1], e);
    assert states[n] == Step(states[n - 1], e);
  }

  lemma DeliveryStarts(states: seq<Session>, events: seq<Event>, env: Env, last: nat)
    requires Delivery(states, events, env, last)
    ensures CaughtAt(states, events, env, 0)
  {
    NothingReceived(states[0], env);
    assert Received(events, 0) == [] && SentIn(states, events, 0) == [];
  }

  lemma {:induction false} DeliveryCatchesUp(states: seq<Session>, events: seq<Event>, env: Env, last: nat, n: nat)
    requires Delivery(states, events, env, last) && n <= last && Sound(states[0], Received(events, last + 1), env)
    ensures CaughtAt(states, events, env, n)
  {
    hide *;
    if n == 0 {
      DeliveryStarts(states, events, env, last);
    } else {
      DeliveryCatchesUp(states, events, env, last, n - 1);
      DeliveryStep(states, events, env, last, n);
    }
  }

  lemma NothingReceived(s: Session, env: Env)
    requires Inv(s) && s.current.Some? && HasTable(s.current.value)
    ensures Caught(s, s, [], [], env)
  {
    T.CutRest(s.line);
    assert s.line + [] == s.line;
    assert Batch(s, [], env) == Start(s);
    assert [] + s.wb.Unread() == s.wb.Unread();
  }

  /** The octets the client has and those it can still get: in a final state nothing more is sent. */
  ghost function Answer(s: Session, sent: Str): Str
    requires s.wb.Ok()
  {
    if Final(s.current) then sent else sent + s.wb.Unread()
  }

  /** Pipelining equivalence. A session in AUTH or TRANSACTION receives octets in any pieces, its responses leaving in
      any pieces in between, and no piece but the last makes it change state. Then it ends up as if everything had come
      in one piece: same state, same half-read line, same mailbox, credentials and log, and the octets sent and pending
      are the same responses in the same order. The hypothesis is that the responses fit the write buffer at once.
      The client gets the same answer if and only if the session has not ended, or nothing was sent before it did. */
  lemma PipeliningEquivalence(states: seq<Session>, events: seq<Event>, env: Env)
    requires events != [] && events[|events| - 1].Readable? && Delivery(states, events, env, |events| - 1)
    requires Sound(states[0], Received(events, |events|), env)
    ensures var one := AtOnce(states[0], Received(events, |events|), env);
      var t, sent := states[|events|], SentIn(states, events, |events|);
      && Same(one, t, sent)
      && (Answer(one, []) == Answer(t, sent) <==> !Final(one.current) || sent == [])
  {
    hide *;
    var n := |events| - 1;
    DeliveryCatchesUp(states, events, env, n, n);
    LastEvent(states, events, env, n);
  }

  lemma SameAnswer(one: Session, t: Session, sent: Str)
    requires Same(one, t, sent)
    ensures Answer(one, []) == Answer(t, sent) <==> !Final(one.current) || sent == []
  {
    assert [] + one.wb.Unread() == one.wb.Unread();
  }

  lemma FinalHasNoEvent(s: Session, e: Event)
    requires Final(s.current)
    ensures !Enabled(s, e)
  {
  }

  /** What `Answer` leaves out is never sent: a session in a final state has no more events. */
  lemma FinalIsSilent(states: seq<Session>, events: seq<Event>)
    requires IsRun(states, events) && Final(states[0].current)
    ensures events == []
  {
    hide Enabled;
    if events != [] {
      assert StepAt(states, events, 0);
      FinalHasNoEvent(states[0], events[0]);
    }
  }

  /** What it counts can be sent: all that is pending, as soon as the client's descriptor is ready. */
  lemma PendingCanLeave(s: Session)
    requires Inv(s) && s.current.Some? && s.clientFd == Some(Write)
    ensures var e := Writable(Client, Some(|s.wb.Unread()|), false);
      Enabled(s, e) && SentBy(s, e) == s.wb.Unread()
  {
  }

  /** In UPDATE a single event is left, and the client gets all of its answer if and only if that is a send which takes all
      that is pending. */
  lemma UpdateSendsOnce(states: seq<Session>, events: seq<Event>)
    requires IsRun(states, events) && Inv(states[0]) && states[0].current == Some(Update) && events != []
    ensures |events| == 1 && Final(states[1].current)
    ensures SentIn(states, events, 1) == states[0].wb.Unread() <==>
            states[0].wb.Unread() == [] || (events[0].Writable? && events[0].sent == Some(|states[0].wb.Unread()|))
  {
    var s, e := states[0], events[0];
    assert StepAt(states, events, 0);
    assert SentIn(states, events, 1) == [] + SentBy(s, e) == SentBy(s, e);
    var u := s.wb.Unread();
    assert u[..|u|] == u;
    UpdateEnds(s, e);
    hide Enabled;
    if |events| > 1 {
      assert StepAt(states, events, 1);
      FinalHasNoEvent(states[1], events[1]);
    }
  }

  lemma UpdateEnds(s: Session, e: Event)
    requires Inv(s) && s.current == Some(Update) && Enabled(s, e)
    ensures Final(Step(s, e).current)
  {
  }

  lemma LastEvent(states: seq<Session>, events: seq<Event>, env: Env, n: nat)
    requires |events| == n + 1 && events[n].Readable? && Delivery(states, events, env, n)
    requires Sound(states[0], Received(events, n + 1), env) && CaughtAt(states, events, env, n)
    ensures var one, sent := AtOnce(states[0], Received(events, n + 1), env), SentIn(states, events, n + 1);
      Same(one, states[n + 1], sent) && (Answer(one, []) == Answer(states[n + 1], sent) <==> !Final(one.current) || sent == [])
  {
    hide Batch;
    hide Caught;
    hide Inv;
    hide Step;
    var s, t, e := states[0], states[n], events[n];
    var received, sent := Received(events, n), SentIn(states, events, n);
    assert StepAt(states, events, n);
    LastRead(s, t, received, sent, e, env);
    assert Received(events, n + 1) == received + e.got.value;
    assert SentIn(states, events, n + 1) == sent + [] == sent;
    SameAnswer(AtOnce(s, Received(events, n + 1), env), states[n + 1], sent);
  }

  lemma LastRead(s: Session, t: Session, received: Str, sent: Str, e: Event, env: Env)
    requires Inv(s) && s.current.Some? && HasTable(s.current.value) && Caught(s, t, received, sent, env)
    requires Enabled(t, e) && e.Readable? && e.fd.Client? && e.got.Some? && e.env == env
    requires Sound(s, received + e.got.value, env)
    ensures Same(AtOnce(s, received + e.got.value, env), Step(t, e), sent)
  {
    var got := e.got.value;
    ReadCatchesUp(s, t, received, sent, got, env);
    ClientReadReacts(s, Client, Some(received + got), env);
    var (one, next1) := ClientRead(s, Client, Some(received + got), env);
    var (u, next) := ClientRead(t, Client, Some(got), env);
    MoveSame(one, u, next, sent);
  }

  // ---------------------------------------------------------------------------------------------
  // Commands that end the session.

  /** QUIT in AUTH, and RETR for a message whose file does not open. */
  predicate EndsBy(h: Handler, c: T.Command, core: Core, env: Env)
    requires Defined(h, core, env)
  {
    || h.AuthQuit?
    || (h.Retr? &&
        var box := Loaded(core, env).box;
        var choice := Choose(box, c.arg1);
        choice.Message? && box.mails[choice.index].path !in env.files)
  }

  predicate Ends(p: Progress, c: T.Command, env: Env)
    requires Able(p, c, env)
  {
    EndsBy(Find(TableOf(p.local), c.name), c, p.core, env)
  }

  lemma CommandEnds(p: Progress, c: T.Command, cur: State, env: Env)
    requires p.wb.Ok() && HasTable(cur) && Able(p, c, env)
    requires Exec(p, c, cur, env).fits
    ensures var q := Exec(p, c, cur, env);
      && (Final(Some(q.local)) <==> Ends(p, c, env))
      && (Final(Some(q.local)) ==> q.wb.Ok() && q.wb.Unread() != [])
  {
    var h := Find(TableOf(p.local), c.name);
    var o := RunHandler(h, c, cur, p.core, env);
    SayAllFits(p.wb, o.replies);
    HandlerEnds(h, c, cur, p.core, env);
    hide RunHandler;
    hide SayAll;
    hide Choose;
    hide Find;
    hide Defined;
  }

  lemma HandlerEnds(h: Handler, c: T.Command, cur: State, core: Core, env: Env)
    requires HasTable(cur) && Defined(h, core, env)
    ensures var o := RunHandler(h, c, cur, core, env);
      && (Final(Some(o.next)) <==> EndsBy(h, c, core, env))
      && (Final(Some(o.next)) ==> Flatten(o.replies) != [])
  {
    FlattenOne(AUTH_QUIT_MSG);
    FlattenOne(POSITIVE_MSG);
    match h
    case List => ReadersLoad(c.arg1, cur, core, env);
    case Dele => DeleMarks(c.arg1, cur, core, env);
    case _ =>
  }

  /** The state the commands before the last one have led to. */
  function BeforeLast(s: Session, cmds: seq<T.Command>, env: Env): Progress
    requires s.current.Some? && |s.wb.written| <= s.wb.limit && cmds != []
  {
    ExecAll(Start(s), cmds[..|cmds| - 1], s.current.value, env)
  }

  /** A batch whose replies fit ends the session if and only if its last command does, and then no response to any of its
      commands is ever sent: there is no further event. */
  lemma EndingBatchIsUnanswered(s: Session, e: Event)
    requires Inv(s) && Enabled(s, e) && IsBatch(s, e) && e.fd.Client? && Batch(s, e.got.value, e.env).fits
    requires T.Meanings(T.CutLines(s.line + e.got.value).lines) != []
    ensures var cmds := T.Meanings(T.CutLines(s.line + e.got.value).lines);
      && Able(BeforeLast(s, cmds, e.env), cmds[|cmds| - 1], e.env)
      && (Final(Step(s, e).current) <==> Ends(BeforeLast(s, cmds, e.env), cmds[|cmds| - 1], e.env))
      && SentBy(s, e) == []
      && (Final(Step(s, e).current) ==>
            Step(s, e).wb.Ok() && Step(s, e).wb.Unread() != [] && forall later :: !Enabled(Step(s, e), later))
  {
    var cmds := T.Meanings(T.CutLines(s.line + e.got.value).lines);
    var cur := s.current.value;
    BatchKeepsBox(Start(s), cmds[..|cmds| - 1], cur, e.env);
    CommandEnds(BeforeLast(s, cmds, e.env), cmds[|cmds| - 1], cur, e.env);
    hide Ends;
    hide T.CutLines;
    hide Exec;
    EndMoves(s, e);
  }

  lemma EndMoves(s: Session, e: Event)
    requires Inv(s) && Enabled(s, e) && IsBatch(s, e) && e.fd.Client?
    ensures var q := Batch(s, e.got.value, e.env);
      && (Final(Step(s, e).current) <==> Final(Some(q.local)))
      && (Final(Step(s, e).current) ==> Step(s, e).wb == q.wb)
  {
    hide Batch;
  }

  /** QUIT in AUTH sent together with other commands: nothing at all is answered, though one by one every command is. */
  lemma QuitIsUnanswered(s: Session, e: Event, init: seq<T.Command>, a: Option<Str>, b: Option<Str>)
    requires Inv(s) && Enabled(s, e) && s.current == Some(Auth) && IsBatch(s, e) && e.fd.Client?
    requires T.Meanings(T.CutLines(s.line + e.got.value).lines) == init + [T.Command(Text("QUIT"), a, b)]
    requires ExecAll(Start(s), init, Auth, e.env).local.Auth? && Batch(s, e.got.value, e.env).fits
    ensures Final(Step(s, e).current) && Step(s, e).wb.Ok() && Step(s, e).wb.Unread() != []
    ensures forall later :: !Enabled(Step(s, e), later)
  {
    AuthNames();
    TransactionNames();
    var cmds := init + [T.Command(Text("QUIT"), a, b)];
    assert cmds[..|cmds| - 1] == init;
    EndingBatchIsUnanswered(s, e);
    hide Step;
    hide Enabled;
    hide ExecAll;
    hide Find;
    hide Text;
  }
}
