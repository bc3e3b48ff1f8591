/** What every step of a session keeps. */
module SessionInvariant {
  import opened Bytes
  import opened Buffers
  import opened Commands
  import opened Maildrop
  import opened Session
  import T = Tokenizer
  import Terminator

  /** The write buffer holds the partial terminator the automaton has seen, unless it overflowed. */
  predicate HoldsPartialTerm(wb: Fifo, k: nat) {
    k < 5 && (|wb.written| == wb.limit || Terminator.EndsWith(wb.written, Terminator.TERM[..k]))
  }

  predicate Final(st: Option<State>) {
    st == Some(Done) || st == Some(Error)
  }

  /** The read buffer is empty except behind a recognised terminator. */
  ghost predicate Inv(s: Session) {
    && BuffersOk(s) && T.NoCrLf(s.line)
    && (s.done ==> (s.current == Some(WritingMail) && |s.wb.written| >= 5) || Final(s.current))
    && (!Final(s.current) && !s.done ==> s.rb == s.rb.Reset())
    && (s.current == Some(ReadingMail) ==> s.stuffing == 0)
    && (s.current == Some(WritingMail) && !s.done ==> HoldsPartialTerm(s.wb, s.stuffing))
    && (s.clientFd.Some? <==> !Final(s.current))
    && (s.mailFd.Some? ==>
          s.current == Some(ReadingMail) || s.current == Some(WritingMail) || (Final(s.current) && !s.core.mailOpen))
  }

  lemma NewInv(s: Session)
    requires IsNew(s)
    ensures Inv(s)
  {
  }

  lemma {:induction false} BatchKeepsBox(p: Progress, cmds: seq<T.Command>, cur: State, env: Env)
    requires BoxOk(p.core.box) && HasTable(cur) && p.local == cur && p.wb.Ok()
    ensures var q := ExecAll(p, cmds, cur, env);
      BoxOk(q.core.box) && !q.local.WritingMail? && (q.local.Auth? ==> cur.Auth?) && p.core.log <= q.core.log && (p.core.mailOpen ==> q.core.mailOpen) && q.wb.Ok()
  {
    if cmds != [] {
      var init, c := cmds[..|cmds| - 1], cmds[|cmds| - 1];
      BatchKeepsBox(p, init, cur, env);
      var q := ExecAll(p, init, cur, env);
      if Able(q, c, env) {
        TableSeparation(q.local, c.name);
        HandlerKeepsBox(Find(TableOf(q.local), c.name), c, cur, q.core, env);
      }
    }
  }

  /** Copying a chunk keeps track of the terminator: unless the buffer overflows, a match finds the whole of it there, and
      deleting and rewriting it changes nothing. */
  lemma CopyKeepsTrack(wb: Fifo, k: nat, bytes: Str)
    requires wb.Ok() && wb.limit >= MIN_BUFFER && HoldsPartialTerm(wb, k) && bytes != []
    ensures var copied := Copied(k, bytes);
      var next := wb.Push(copied);
      && copied != [] && copied <= bytes
      && match Terminator.Scan(k, bytes)
         case None => HoldsPartialTerm(next, Terminator.StateAfter(k, bytes))
         case Some(_) => |next.written| >= 5 && (|copied| <= wb.Room() ==> Rewrite(next) == next)
  {
    var copied := Copied(k, bytes);
    var next := wb.Push(copied);
    if |copied| <= wb.Room() {
      assert copied[..|copied|] == copied && next.written == wb.written + copied;
      assert |wb.written| < wb.limit;
      match Terminator.Scan(k, bytes) {
        case None => Terminator.StateContinuesPrefix(wb.written, k, bytes);
        case Some(n) => Terminator.MatchContinuesPrefix(wb.written, k, bytes, n);
      }
    }
  }

  /** What a handler leaves behind, before the machine moves on. */
  ghost predicate Reacted(s: Session, t: Session, next: State) {
    && BuffersOk(t) && T.NoCrLf(t.line) && s.current.Some? && t.current == s.current && t.clientFd.Some?
    && (next.Auth? ==> s.current.value.Auth?)
    && (next.WritingMail? ==> s.current.value.ReadingMail? || s.current.value.WritingMail?)
    && (t.done ==> (next.WritingMail? && |t.wb.written| >= 5) || next.Error?)
    && (!t.done && !next.Error? && !next.Done? ==> t.rb == t.rb.Reset())
    && (next.ReadingMail? && s.current.value.ReadingMail? ==> t.stuffing == 0)
    && (next.WritingMail? && !t.done ==> HoldsPartialTerm(t.wb, t.stuffing))
    && (t.mailFd.Some? ==> next.ReadingMail? || next.WritingMail? || next.Done? || next.Error?)
  }

  lemma ClientReadReacts(s: Session, fd: Fd, got: Option<Str>, env: Env)
    requires Inv(s) && s.current.Some? && HasTable(s.current.value) && fd.Client?
    ensures var (t, next) := ClientRead(s, fd, got, env); Reacted(s, t, next)
  {
    if got.Some? {
      var cmds := T.Meanings(T.CutLines(s.line + got.value).lines);
      BatchKeepsBox(Progress(s.core, s.wb, s.current.value, true, true), cmds, s.current.value, env);
      T.CutIsCut(s.line + got.value);
    }
  }

  lemma CopyInBounds(s: Session, got: Str)
    requires Inv(s) && (s.current == Some(ReadingMail) || s.current == Some(WritingMail))
    requires 0 < |got| <= s.rb.Room()
    ensures var bytes := s.rb.Unread() + got;
      var copied := Copied(s.stuffing, bytes);
      var rb := s.rb.Fill(got).Take(|copied|);
      var wb := s.wb.Push(copied);
      && rb.Ok() && wb.Ok() && Rewrite(wb).Ok()
      && (copied == bytes ==> rb == s.rb.Reset())
      && (s.done ==> |wb.written| >= 5)
      && (|wb.written| >= 5 ==> |Rewrite(wb).written| == |wb.written|)
  {
    assert s.rb.Fill(got).Unread() == s.rb.Unread() + got;
  }

  lemma FileReadReacts(s: Session, fd: Fd, got: Option<Str>)
    requires Inv(s) && (s.current == Some(ReadingMail) || s.current == Some(WritingMail))
    requires got.Some? ==> 0 < |got.value| <= s.rb.Room()
    ensures var (t, next) := FileRead(s, fd, got); Reacted(s, t, next)
  {
    if got.Some? {
      var bytes := s.rb.Unread() + got.value;
      CopyInBounds(s, got.value);
      if !s.done {
        CopyKeepsTrack(s.wb, s.stuffing, bytes);
      }
    }
  }

  lemma MailWriteReacts(s: Session, fd: Fd, sent: Option<nat>, reset: bool)
    requires Inv(s) && (s.current == Some(ReadingMail) || s.current == Some(WritingMail))
    requires sent.Some? ==> sent.value <= |s.wb.Unread()|
    ensures var (t, next) := MailWrite(s, fd, sent, reset); Reacted(s, t, next)
  {
  }

  lemma ReactReacts(s: Session, e: Event)
    requires Inv(s) && CanReact(s, e) && InterestOf(s, e.fd).Some?
    ensures var (t, next) := React(s, e); Reacted(s, t, next)
  {
    match e
    case Readable(fd, got, env) =>
      if HasTable(s.current.value) {
        ClientReadReacts(s, fd, got, env);
      } else if !s.current.value.Update? {
        FileReadReacts(s, fd, got);
      }
    case Writable(fd, sent, reset) =>
      if s.current.value.ReadingMail? || s.current.value.WritingMail? {
        MailWriteReacts(s, fd, sent, reset);
      }
  }

  /** Whether the event is a batch of command octets. */
  predicate IsBatch(b: Session, e: Event) {
    e.Readable? && e.got.Some? && b.current.Some? && HasTable(b.current.value)
  }

  /** Only a batch of commands changes what commands change. */
  lemma ReactCore(b: Session, e: Event)
    requires CanReact(b, e)
    ensures var (t, next) := React(b, e);
      && t.current == b.current
      && (if IsBatch(b, e) then t.core == Batch(b, e.got.value, e.env).core && next == Batch(b, e.got.value, e.env).local
          else t.core == b.core)
      && (b.current == Some(Update) ==> next.Done? || next.Error?)
      && (!IsBatch(b, e) && NeedsLogin(next) ==> NeedsLogin(b.current.value))
      && (!IsBatch(b, e) && (next.ReadingMail? || next.WritingMail?) ==>
            b.current.value.ReadingMail? || b.current.value.WritingMail?)
      && (t.mailFd.Some? ==> b.mailFd.Some? || e.fd.MailFile?)
  {
  }

  /** Moving to the next state, and closing in the final ones. */
  lemma MoveInv(s: Session, t: Session, next: State)
    requires s.current.Some? && !Final(s.current) && Reacted(s, t, next)
    ensures Inv(Finish(Jump(t, next), next))
  {
  }

  lemma BeginInv(s: Session)
    requires Inv(s)
    ensures Inv(Begin(s))
  {
    assert |WELCOME| == 18;
  }

  /** Every step of a session keeps the invariant. */
  lemma StepInv(s: Session, e: Event)
    requires Inv(s) && Enabled(s, e)
    ensures Inv(Step(s, e))
  {
    BeginInv(s);
    var b := Begin(s);
    ReactReacts(b, e);
    var (t, next) := React(b, e);
    MoveInv(b, t, next);
  }

  /** So every session of every run has it. */
  lemma {:induction false} RunInv(states: seq<Session>, events: seq<Event>, i: nat)
    requires IsSession(states, events) && i < |states|
    ensures Inv(states[i])
  {
    if i == 0 {
      NewInv(states[0]);
    } else {
      RunInv(states, events, i - 1);
      assert StepAt(states, events, i - 1);
      StepInv(states[i - 1], events[i - 1]);
    }
  }
}
