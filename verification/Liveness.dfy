/** No session is stuck: what is pending can always be sent, and every mail whose end is recognised can be delivered. */
module Liveness {
  import opened Bytes
  import opened Buffers
  import opened Commands
  import opened Session
  import opened SessionInvariant
  import opened Transfer
  import D = Dialogue
  import M = Mailbox
  import P = Pipelining
  import T = Tokenizer
  import Terminator

  // ---------------------------------------------------------------------------------------------
  // Where events lead.

  predicate Fails(e: Event) {
    if e.Readable? then e.got.None? else e.sent.None?
  }

  /** The state of the next session, for every event of every state. */
  ghost predicate LeadsTo(b: Session, e: Event, next: State)
    requires CanReact(b, e)
  {
    var st := b.current.value;
    if HasTable(st) then next == if Fails(e) then Error else if e.Readable? then Batch(b, e.got.value, e.env).local else st
    else if st.Update? then next == if e.Writable? && Fails(e) then Error else Done
    else if e.Readable? then next == if Fails(e) then Error else WritingMail
    else if b.done then next == Transaction
    else if Fails(e) then next == if e.reset then Error else st
    else next == if e.sent.value == |b.wb.Unread()| then ReadingMail else st
  }

  /** A command batch leads where its commands ask; a failed system call ends the session, but for a send in a transfer that
      failed without a reset; a send that leaves nothing goes back to the mail, and the one behind its end to TRANSACTION. */
  lemma EventsLead(s: Session, e: Event)
    requires Inv(s) && Enabled(s, e)
    ensures CanReact(Begin(s), e) && Step(s, e).current.Some? && LeadsTo(Begin(s), e, Step(s, e).current.value)
  {
    hide Batch;
    hide Rewrite;
    hide Copied;
    hide BoxOk;
    hide Terminator.Scan;
    hide Terminator.StateAfter;
  }

  /** A session enters UPDATE, where mails are removed, exactly with a batch whose last command is QUIT in TRANSACTION. */
  lemma EntersUpdateExactly(s: Session, e: Event)
    requires Inv(s) && M.BoxIs(Begin(s).core) && Enabled(s, e) && s.current != Some(Update)
    ensures Step(s, e).current == Some(Update) <==>
            && IsBatch(Begin(s), e)
            && var cmds := T.Meanings(T.CutLines(s.line + e.got.value).lines);
               && cmds != [] && cmds[|cmds| - 1].name == Text("QUIT")
               && P.BeforeLast(Begin(s), cmds, e.env).local == Transaction
  {
    hide M.BoxIs;
    hide Batch;
    hide Step;
    hide Text;
    hide T.CutLines;
    hide ExecAll;
    hide BoxOk;
    var b := Begin(s);
    BeginInv(s);
    EventsLead(s, e);
    hide Inv;
    if IsBatch(b, e) {
      BatchLeads(b, e);
    }
  }

  lemma BatchLeads(b: Session, e: Event)
    requires Inv(b) && M.BoxIs(b.core) && IsBatch(b, e) && Batch(b, e.got.value, e.env).defined
    ensures Batch(b, e.got.value, e.env).local == Update <==>
            var cmds := T.Meanings(T.CutLines(b.line + e.got.value).lines);
            && cmds != [] && cmds[|cmds| - 1].name == Text("QUIT")
            && P.BeforeLast(b, cmds, e.env).local == Transaction
  {
    var cmds, cur := T.Meanings(T.CutLines(b.line + e.got.value).lines), b.current.value;
    if cmds != [] {
      LastLeads(P.Start(b), cmds, cur, e.env);
    }
    hide T.CutLines;
    hide ExecAll;
    hide M.BoxIs;
  }

  lemma LastLeads(p: Progress, cmds: seq<T.Command>, cur: State, env: Env)
    requires p.wb.Ok() && BoxOk(p.core.box) && M.BoxIs(p.core) && HasTable(cur) && p.local == cur && cmds != []
    requires ExecAll(p, cmds, cur, env).defined
    ensures ExecAll(p, cmds, cur, env).local == Update <==>
            cmds[|cmds| - 1].name == Text("QUIT") && ExecAll(p, cmds[..|cmds| - 1], cur, env).local == Transaction
  {
    var init, c := cmds[..|cmds| - 1], cmds[|cmds| - 1];
    BatchKeepsBox(p, init, cur, env);
    M.BatchKeepsMarks(p, init, cur, env);
    hide M.BoxIs;
    hide Text;
    hide BoxOk;
    hide Find;
    var q := ExecAll(p, init, cur, env);
    assert Able(q, c, env);
    hide Able;
    D.LeadsExactly(q, c, cur, env);
    hide Exec;
  }

  // ---------------------------------------------------------------------------------------------
  // Every live session waits for the right thing.

  predicate Answers(s: Session) {
    s.current.None? || s.current == Some(Auth) || s.current == Some(Transaction) || s.current == Some(Update)
  }

  /** A session that answers commands waits to send whatever is pending; in UPDATE and before the first event it waits to send.
      In a transfer the mail is registered, and once its end was recognised one of the two descriptors waits to send. */
  predicate Responsive(s: Session)
    requires s.wb.read <= |s.wb.written|
  {
    && (s.clientFd == Some(Read) && Answers(s) ==> s.wb.Unread() == [] && s.current.Some? && s.current != Some(Update))
    && (InTransfer(s) ==> s.mailFd.Some?)
    && (s.done && InTransfer(s) ==> s.clientFd == Some(Write) || s.mailFd == Some(Write))
  }

  lemma BeginResponsive(s: Session)
    requires Inv(s) && Responsive(s)
    ensures Begin(s).wb.read <= |Begin(s).wb.written| && Responsive(Begin(s))
  {
    assert |WELCOME| == 18;
  }

  lemma BatchResponsive(b: Session, e: Event)
    requires Inv(b) && Responsive(b) && b.current.Some? && HasTable(b.current.value) && e.Readable? && e.fd.Client?
    requires CanReact(b, e) && b.clientFd == Some(Read)
    ensures var (t, next) := ClientRead(b, e.fd, e.got, e.env);
      var u := Finish(Jump(t, next), next);
      u.wb.read <= |u.wb.written| && Responsive(u)
  {
    hide T.CutLines;
    hide Batch;
    hide BoxOk;
    hide ToErase;
    if e.got.Some? {
      if T.CutLines(b.line + e.got.value).lines == [] {
        NoLinesStay(b, e);
        NoLinesSay(b, e);
      }
      ClientReadReacts(b, e.fd, e.got, e.env);
    }
  }

  lemma NoLinesSay(b: Session, e: Event)
    requires IsBatch(b, e) && b.wb.Ok() && T.CutLines(b.line + e.got.value).lines == []
    ensures Batch(b, e.got.value, e.env).wb == b.wb
  {
  }

  lemma ReadResponsive(b: Session, e: Event)
    requires Inv(b) && InTransfer(b) && Responsive(b) && e.Readable? && CanReact(b, e) && InterestOf(b, e.fd).Some?
    ensures var (t, next) := React(b, e);
      var u := Finish(Jump(t, next), next);
      u.wb.read <= |u.wb.written| && Responsive(u)
  {
    FileReadReacts(b, e.fd, e.got);
    hide Rewrite;
    hide Copied;
    hide BoxOk;
    hide Terminator.Scan;
    hide Terminator.StateAfter;
  }

  lemma AnswerResponsive(b: Session, e: Event)
    requires Inv(b) && Responsive(b) && b.current.Some? && !InTransfer(b) && e.Writable? && e.fd.Client? && CanReact(b, e)
    requires b.clientFd == Some(Write)
    ensures var (t, next) := ClientWrite(b, e.fd, e.sent);
      var u := Finish(Jump(t, next), next);
      u.wb.read <= |u.wb.written| && Responsive(u)
  {
    hide BoxOk;
    hide ToErase;
    hide Batch;
  }

  lemma MailResponsive(b: Session, e: Event)
    requires Inv(b) && Responsive(b) && InTransfer(b) && e.Writable? && CanReact(b, e) && InterestOf(b, e.fd) == Some(Write)
    ensures var (t, next) := MailWrite(b, e.fd, e.sent, e.reset);
      var u := Finish(Jump(t, next), next);
      u.wb.read <= |u.wb.written| && Responsive(u)
  {
    hide BoxOk;
    hide ToErase;
    hide Batch;
    MailWriteReacts(b, e.fd, e.sent, e.reset);
    var (t, next) := MailWrite(b, e.fd, e.sent, e.reset);
    if next.Transaction? {
      assert t.wb.Unread() == [];
    }
  }

  lemma StepResponsive(s: Session, e: Event)
    requires Inv(s) && Responsive(s) && Enabled(s, e)
    ensures Inv(Step(s, e)) && Responsive(Step(s, e))
  {
    StepInv(s, e);
    BeginInv(s);
    BeginResponsive(s);
    var b := Begin(s);
    hide BoxOk;
    hide Batch;
    if e.Writable? && InTransfer(b) {
      MailResponsive(b, e);
    } else if e.Writable? {
      OnlyClient(b, e.fd);
      AnswerResponsive(b, e);
    } else if HasTable(b.current.value) {
      OnlyClient(b, e.fd);
      BatchResponsive(b, e);
    } else if InTransfer(b) {
      ReadResponsive(b, e);
    }
    hide FileRead;
    hide ClientRead;
    hide MailWrite;
    hide ClientWrite;
  }

  lemma OnlyClient(b: Session, fd: Fd)
    requires Inv(b) && b.current.Some? && !InTransfer(b) && !Final(b.current) && InterestOf(b, fd).Some?
    ensures fd.Client?
  {
  }

  /** Every reachable session is responsive. */
  lemma {:induction false} RunResponsive(states: seq<Session>, events: seq<Event>, n: nat)
    requires IsSession(states, events) && n < |states|
    ensures Inv(states[n]) && Responsive(states[n])
  {
    if n == 0 {
      NewInv(states[0]);
    } else {
      RunResponsive(states, events, n - 1);
      assert StepAt(states, events, n - 1);
      StepResponsive(states[n - 1], events[n - 1]);
      hide Inv;
      hide Responsive;
      hide Step;
      hide Enabled;
    }
  }

  // ---------------------------------------------------------------------------------------------
  // Commands are answered.

  /** A new session has the greeting pending, and nothing but sending it can come first. */
  lemma GreetsFirst(s: Session, e: Event)
    requires IsNew(s) && Enabled(s, e)
    ensures e.Writable? && e.fd.Client? && Begin(s).current == Some(Auth)
    ensures Begin(s).wb.read == 0 && Begin(s).wb.Unread() == Text("+OK Server ready\r\n")
  {
    hide Text;
    assert [] + WELCOME == WELCOME;
  }

  /** Ready for the next command: nothing pending, and the client's descriptor waits to read. */
  predicate Ready(s: Session)
    requires s.wb.read <= |s.wb.written|
  {
    s.clientFd == Some(Read) && s.wb.Unread() == []
  }

  /** Whatever is pending in AUTH or TRANSACTION, one event sends all of it and the session is ready for the next command, with
      nothing else changed; a session that does not wait to send is ready already. */
  lemma AnswersLeave(s: Session)
    requires Inv(s) && Responsive(s) && (s.current == Some(Auth) || s.current == Some(Transaction))
    ensures s.clientFd == Some(Read) ==> Ready(s)
    ensures s.clientFd == Some(Write) ==>
              var e := Writable(Client, Some(|s.wb.Unread()|), false);
              && Enabled(s, e) && SentBy(s, e) == s.wb.Unread()
              && Step(s, e) == s.(wb := s.wb.Reset(), clientFd := Some(Read)) && Ready(Step(s, e))
    ensures s.clientFd.Some?
  {
    if s.clientFd == Some(Write) {
      assert s.wb.Take(|s.wb.Unread()|) == s.wb.Reset();
    }
  }

  /** A ready session takes any octets its read buffer has room for, if what their commands do is determined. */
  lemma ReadyReads(s: Session, got: Str, env: Env)
    requires Inv(s) && Ready(s) && (s.current == Some(Auth) || s.current == Some(Transaction))
    requires 0 < |got| <= s.rb.limit && Batch(s, got, env).defined
    ensures Enabled(s, Readable(Client, Some(got), env))
  {
    hide Batch;
  }

  // ---------------------------------------------------------------------------------------------
  // Mails are delivered.

  /** The mail is read on: when a send on its own descriptor leaves nothing pending and its end was not recognised, the session
      waits for its next chunk, whatever that is. */
  lemma DrainedReadsOn(s: Session, e: Event, chunk: Str, env: Env)
    requires Inv(s) && InTransfer(s) && !s.done && Enabled(s, e) && e.Writable? && e.fd.MailFile?
    requires e.sent == Some(|s.wb.Unread()|)
    ensures var u := Step(s, e);
      && Begun(u) && u.wb == s.wb.Reset() && u.clientFd == s.clientFd && SentBy(s, e) == s.wb.Unread()
      && (0 < |chunk| <= s.rb.limit ==> Enabled(u, Readable(MailFile, Some(chunk), env)))
  {
    StepInv(s, e);
    assert s.wb.Take(|s.wb.Unread()|) == s.wb.Reset();
  }

  /** From any transfer whose end was not recognised yet at most one event leads to where the next chunk can be read. */
  lemma TransferGoesOn(s: Session, chunk: Str, env: Env)
    requires Inv(s) && Responsive(s) && InTransfer(s) && !s.done && 0 < |chunk| <= s.rb.limit
    ensures s.mailFd == Some(Read) ==> Enabled(s, Readable(MailFile, Some(chunk), env))
    ensures s.mailFd == Some(Write) ==>
              var e := Writable(MailFile, Some(|s.wb.Unread()|), false);
              && Enabled(s, e) && Enabled(Step(s, e), Readable(MailFile, Some(chunk), env))
    ensures s.mailFd.Some?
  {
    if s.mailFd == Some(Write) {
      DrainedReadsOn(s, Writable(MailFile, Some(|s.wb.Unread()|), false), chunk, env);
    }
  }

  /** And once it was recognised one event ends the transfer and sends all that is pending. */
  lemma TransferEnds(s: Session)
    requires Inv(s) && Responsive(s) && InTransfer(s) && s.done
    ensures var fd := if s.mailFd == Some(Write) then MailFile else Client;
      var e := Writable(fd, Some(|s.wb.Unread()|), false);
      Enabled(s, e) && Step(s, e).current == Some(Transaction) && SentBy(s, e) == s.wb.Unread()
  {
  }

  /** A transfer between chunks: nothing is pending, and the mail is to be read. */
  ghost predicate Between(s: Session) {
    Begun(s) && s.clientFd == Some(Read) && s.wb == s.wb.Reset()
  }

  function ReadOf(chunk: Str, env: Env): Event {
    Readable(MailFile, Some(chunk), env)
  }

  function SendOf(octets: Str): Event {
    Writable(MailFile, Some(|octets|), false)
  }

  /** The part of a chunk that is copied, and that it holds the end. */
  function Ends(chunk: Str): bool {
    Terminator.Scan(Terminator.START, chunk).Some?
  }

  lemma ChunkRead(s: Session, chunk: Str, env: Env)
    requires Between(s) && 0 < |chunk| <= s.rb.limit && |chunk| <= s.wb.limit
    ensures Enabled(s, ReadOf(chunk, env)) && SentBy(s, ReadOf(chunk, env)) == []
    ensures var t := Step(s, ReadOf(chunk, env));
      && Inv(t) && t.current == Some(WritingMail) && t.mailFd == Some(Write) && t.clientFd == Some(Read)
      && (t.done <==> Ends(chunk)) && t.wb.Unread() == Copied(Terminator.START, chunk)
      && t.rb.limit == s.rb.limit && t.wb.limit == s.wb.limit && t.line == s.line && t.core == s.core
  {
    hide Copied;
    hide Rewrite;
    hide BoxOk;
    hide Terminator.Scan;
    hide Terminator.StateAfter;
    hide HoldsPartialTerm;
    hide Tracks;
    hide EndsAgain;
    var e := ReadOf(chunk, env);
    assert s.rb.Unread() + chunk == chunk;
    StepInv(s, e);
    NotAtEnd(s, chunk);
    ReadConservesExactly(s, MailFile, chunk);
    CopyInBounds(s, chunk);
    RewriteLimit(s.wb.Push(Copied(s.stuffing, chunk)));
    assert [] + Copied(Terminator.START, chunk) == Copied(Terminator.START, chunk);
  }

  lemma RewriteLimit(wb: Fifo)
    ensures Rewrite(wb).limit == wb.limit
  {
  }

  lemma NotAtEnd(s: Session, chunk: Str)
    requires !s.done
    ensures Tracks(s) && !EndsAgain(s, chunk)
  {
  }

  /** Back in TRANSACTION, ready for the next command. */
  ghost predicate Delivered(s: Session) {
    Inv(s) && s.current == Some(Transaction) && Ready(s) && s.mailFd.None?
  }

  /** Only states were noted in between. */
  ghost predicate SameBut(a: Core, b: Core) {
    b == a.(log := b.log) && a.log <= b.log && M.Marks(b.log) == M.Marks(a.log)
  }

  lemma ChunkSent(t: Session, copied: Str)
    requires Inv(t) && t.current == Some(WritingMail) && t.mailFd == Some(Write) && t.clientFd == Some(Read)
    requires t.wb.Unread() == copied
    ensures Enabled(t, SendOf(copied)) && SentBy(t, SendOf(copied)) == copied
    ensures var u := Step(t, SendOf(copied));
      && u.rb.limit == t.rb.limit && u.wb.limit == t.wb.limit && u.line == t.line
      && SameBut(t.core, u.core) && (if t.done then Delivered(u) else Between(u))
  {
    hide SameBut;
    hide BoxOk;
    hide HoldsPartialTerm;
    assert t.wb.Take(|copied|) == t.wb.Reset();
    StepInv(t, SendOf(copied));
    NotesOnly(t.core, Transaction);
    NotesOnly(t.core, ReadingMail);
  }

  lemma NotesOnly(core: Core, st: State)
    ensures SameBut(core, core.(log := core.log + [Arrived(st)]))
  {
    M.HistoryStep(core.log, Arrived(st));
    hide M.Marks;
  }

  // ---------------------------------------------------------------------------------------------
  // Runs, one event longer.

  lemma {:induction false} SentBefore(states: seq<Session>, events: seq<Event>, u: Session, e: Event, n: nat)
    requires IsRun(states, events) && IsRun(states + [u], events + [e]) && n <= |events|
    ensures SentIn(states + [u], events + [e], n) == SentIn(states, events, n)
  {
    hide Enabled;
    hide Step;
    hide SentBy;
    if n > 0 {
      SentBefore(states, events, u, e, n - 1);
      assert StepAt(states, events, n - 1);
      hide IsRun;
      assert (states + [u])[n - 1] == states[n - 1] && (events + [e])[n - 1] == events[n - 1];
    }
  }

  /** The run goes on with event `e`. */
  lemma RunOn(states: seq<Session>, events: seq<Event>, e: Event)
    requires IsRun(states, events) && Enabled(states[|events|], e)
    ensures var more, all := states + [Step(states[|events|], e)], events + [e];
      IsRun(more, all) && SentIn(more, all, |all|) == SentIn(states, events, |events|) + SentBy(states[|events|], e)
  {
    hide Enabled;
    hide Step;
    var u := Step(states[|events|], e);
    var more, all := states + [u], events + [e];
    forall i: nat | i < |all|
      ensures StepAt(more, all, i)
    {
      if i < |events| {
        assert StepAt(states, events, i);
      }
    }
    SentBefore(states, events, u, e, |events|);
  }

  // ---------------------------------------------------------------------------------------------
  // Whole mails.

  /** A mail in chunks: each fits the buffers, and the last one, and no other, holds an end as the automaton sees it. */
  predicate Chunking(chunks: seq<Str>, limit: nat) {
    && chunks != [] && (forall i | 0 <= i < |chunks| :: 0 < |chunks[i]| <= limit)
    && forall i | 0 <= i < |chunks| :: Ends(chunks[i]) <==> i == |chunks| - 1
  }

  /** Sessions that differ in no more than what a transfer changes. */
  ghost predicate SameSession(s: Session, u: Session) {
    u.rb.limit == s.rb.limit && u.wb.limit == s.wb.limit && u.line == s.line && SameBut(s.core, u.core)
  }

  lemma SameTwice(s: Session, t: Session, u: Session)
    requires SameSession(s, t) && SameSession(t, u)
    ensures SameSession(s, u)
  {
  }

  /** A run between chunks goes on: chunks without an end are read and sent one by one. */
  lemma {:induction false} ChunksSent(states: seq<Session>, events: seq<Event>, chunks: seq<Str>, env: Env)
    returns (states': seq<Session>, events': seq<Event>)
    requires IsRun(states, events) && Between(states[|events|])
    requires forall i | 0 <= i < |chunks| ::
               0 < |chunks[i]| <= Min(states[|events|].rb.limit, states[|events|].wb.limit) && !Ends(chunks[i])
    ensures IsRun(states', events') && states'[0] == states[0] && events <= events' && Between(states'[|events'|])
    ensures SentIn(states', events', |events'|) == SentIn(states, events, |events|) + Flatten(chunks)
    ensures SameSession(states[|events|], states'[|events'|])
  {
    hide Between;
    hide Step;
    hide Enabled;
    hide Ends;
    hide Copied;
    if chunks == [] {
      states', events' := states, events;
      assert SentIn(states, events, |events|) + [] == SentIn(states, events, |events|);
    } else {
      var init, chunk := chunks[..|chunks| - 1], chunks[|chunks| - 1];
      var more, all := ChunksSent(states, events, init, env);
      WholeChunk(chunk);
      states', events' := TwoMore(more, all, chunk, env);
      SameTwice(states[|events|], more[|all|], states'[|events'|]);
      hide SameSession;
      Assoc(SentIn(states, events, |events|), Flatten(init), chunk);
    }
  }

  lemma WholeChunk(chunk: Str)
    requires !Ends(chunk)
    ensures Copied(Terminator.START, chunk) == chunk
  {
  }

  lemma TwoMore(states: seq<Session>, events: seq<Event>, chunk: Str, env: Env)
    returns (states': seq<Session>, events': seq<Event>)
    requires IsRun(states, events) && Between(states[|events|])
    requires 0 < |chunk| <= Min(states[|events|].rb.limit, states[|events|].wb.limit)
    ensures IsRun(states', events') && states'[0] == states[0] && events <= events'
    ensures SentIn(states', events', |events'|) == SentIn(states, events, |events|) + Copied(Terminator.START, chunk)
    ensures var s, u := states[|events|], states'[|events'|];
      SameSession(s, u) && (if Ends(chunk) then Delivered(u) else Between(u))
  {
    var s, copied := states[|events|], Copied(Terminator.START, chunk);
    ChunkRead(s, chunk, env);
    RunOn(states, events, ReadOf(chunk, env));
    var t := Step(s, ReadOf(chunk, env));
    var more, all := states + [t], events + [ReadOf(chunk, env)];
    ChunkSent(t, copied);
    hide Step;
    hide Enabled;
    hide Inv;
    hide SentBy;
    hide Between;
    hide Delivered;
    assert SentIn(states, events, |events|) + [] == SentIn(states, events, |events|);
    RunOn(more, all, SendOf(copied));
    states', events' := more + [Step(t, SendOf(copied))], all + [SendOf(copied)];
  }

  lemma ResponseLeaves(states: seq<Session>, events: seq<Event>) returns (states': seq<Session>, events': seq<Event>)
    requires IsRun(states, events) && Begun(states[|events|]) && states[|events|].clientFd == Some(Write)
    ensures IsRun(states', events') && states'[0] == states[0] && events <= events' && Between(states'[|events'|])
    ensures SentIn(states', events', |events'|) == SentIn(states, events, |events|) + states[|events|].wb.Unread()
    ensures SameSession(states[|events|], states'[|events'|])
  {
    var s := states[|events|];
    var e := Writable(Client, Some(|s.wb.Unread()|), false);
    assert s.wb.Take(|s.wb.Unread()|) == s.wb.Reset();
    assert Enabled(s, e) && Step(s, e) == s.(wb := s.wb.Reset(), clientFd := Some(Read));
    assert SentBy(s, e) == s.wb.Unread();
    StepInv(s, e);
    hide Step;
    hide Enabled;
    RunOn(states, events, e);
    states', events' := states + [Step(s, e)], events + [e];
  }

  /** Every mail whose end is recognised can be delivered, in however many chunks: a run leads from an accepted RETR back to
      TRANSACTION, ready for the next command, and sends what was pending and the chunks through the first end. */
  lemma MailIsDelivered(states: seq<Session>, events: seq<Event>, chunks: seq<Str>, env: Env)
    returns (states': seq<Session>, events': seq<Event>)
    requires IsRun(states, events) && Begun(states[|events|]) && states[|events|].clientFd == Some(Write)
    requires Chunking(chunks, Min(states[|events|].rb.limit, states[|events|].wb.limit))
    ensures IsRun(states', events') && states'[0] == states[0] && events <= events' && Delivered(states'[|events'|])
    ensures SameSession(states[|events|], states'[|events'|])
    ensures SentIn(states', events', |events'|) ==
            SentIn(states, events, |events|) + states[|events|].wb.Unread() + Through(chunks)
  {
    var base := SentIn(states, events, |events|) + states[|events|].wb.Unread();
    hide Between;
    hide Begun;
    hide Step;
    hide Enabled;
    hide Ends;
    hide Copied;
    hide SameSession;
    hide Delivered;
    var s, init, chunk := states[|events|], chunks[..|chunks| - 1], chunks[|chunks| - 1];
    var a, b := ResponseLeaves(states, events);
    var c, d := ChunksSent(a, b, init, env);
    states', events' := TwoMore(c, d, chunk, env);
    SameTwice(s, a[|b|], c[|d|]);
    SameTwice(s, c[|d|], states'[|events'|]);
    Assoc(base, Flatten(init), Copied(Terminator.START, chunk));
  }

  /** The chunks through the first end. */
  function Through(chunks: seq<Str>): Str
    requires chunks != []
  {
    Flatten(chunks[..|chunks| - 1]) + Copied(Terminator.START, chunks[|chunks| - 1])
  }

  /** It is the beginning of the file, and ends behind the terminator found in the last chunk. */
  lemma ThroughIsPrefix(chunks: seq<Str>, limit: nat)
    requires Chunking(chunks, limit)
    ensures Through(chunks) <= Flatten(chunks) && Terminator.EndsWith(Through(chunks), Terminator.TERM)
  {
    var init, chunk := chunks[..|chunks| - 1], chunks[|chunks| - 1];
    var n := Terminator.Scan(Terminator.START, chunk).value;
    Terminator.MatchIsSound(chunk, n);
    assert Flatten(chunks) == Flatten(init) + chunk;
    assert chunk[..n][n - 5..] == Terminator.TERM;
  }

  lemma BatchKeepsLimits(s: Session, e: Event)
    requires Inv(s) && Enabled(s, e) && IsBatch(s, e)
    ensures Step(s, e).rb.limit == s.rb.limit
    ensures Step(s, e).wb.limit == s.wb.limit
    ensures SentBy(s, e) == []
  {
    hide Batch;
    hide BoxOk;
    hide ToErase;
    hide T.CutLines;
    BatchLimit(s, e);
  }

  lemma BatchLimit(s: Session, e: Event)
    requires IsBatch(s, e) && s.wb.Ok()
    ensures Batch(s, e.got.value, e.env).wb.limit == s.wb.limit
  {
  }

  /** RETR as a whole, for every mail and every way its file is read. The command comes as the last of a read and the file of
      its message begins with chunks that fit the buffers, the end being recognised in the last one. Then a run leads back to
      TRANSACTION, ready for the next command, and sends what was pending, `+OK` and the file through that end. */
  lemma RetrIsDelivered(s: Session, e: Event, init: seq<T.Command>, i: nat, q: Progress, chunks: seq<Str>, env: Env)
    returns (states: seq<Session>, events: seq<Event>)
    requires Inv(s) && Enabled(s, e) && M.BoxIs(s.core) && Retrieves(s, e, init, i, q)
    requires Chunking(chunks, Min(s.rb.limit, s.wb.limit))
    requires Flatten(chunks) <= e.env.files[e.env.Mails(q.core.user)[i].path]
    ensures q.wb.Ok() && IsRun(states, events) && states[0] == s && events != [] && events[0] == e && Delivered(states[|events|])
    ensures var file := e.env.files[e.env.Mails(q.core.user)[i].path];
      && Through(chunks) <= file && Terminator.EndsWith(Through(chunks), Terminator.TERM)
      && SentIn(states, events, |events|) == q.wb.Unread() + POSITIVE_MSG + Through(chunks)
  {
    RetrBegins(s, e, init, i, q);
    BatchKeepsLimits(s, e);
    ThroughIsPrefix(chunks, Min(s.rb.limit, s.wb.limit));
    FirstEvent(s, e);
    hide Retrieves;
    hide Step;
    hide Enabled;
    hide Begun;
    hide Inv;
    hide Through;
    hide Chunking;
    hide Delivered;
    hide IsRun;
    hide Text;
    var u := Step(s, e);
    states, events := MailIsDelivered([s, u], [e], chunks, env);
    EmptyFront(u.wb.Unread(), Through(chunks));
    assert events[0] == [e][0];
  }

  lemma EmptyFront(a: Str, b: Str)
    ensures [] + a + b == a + b
  {
  }

  lemma FirstEvent(s: Session, e: Event)
    requires Enabled(s, e)
    ensures IsRun([s, Step(s, e)], [e]) && SentIn([s, Step(s, e)], [e], 1) == SentBy(s, e)
  {
    hide Step;
    hide Enabled;
    var states, events := [s, Step(s, e)], [e];
    assert StepAt(states, events, 0);
    assert SentIn(states, events, 0) + SentBy(s, e) == SentBy(s, e);
  }
}
