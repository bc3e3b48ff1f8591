/** pop3nio.c and stm.c: a session as a state machine over readiness events on its socket and its mail file. */
module Session {
  import opened Bytes
  import opened Buffers
  import opened Commands
  import opened Maildrop
  import T = Tokenizer
  import Terminator

  const WELCOME := Text("+OK Server ready\r\n")

  /** The least buffer the welcome and the terminator fit in; the server's are 4 MiB. */
  const MIN_BUFFER: nat := 64

  datatype Interest = Read | Write

  /** The two descriptors a session has registered. */
  datatype Fd = Client | MailFile

  datatype Session = Session(
    current: Option<State>,
    line: Str,
    rb: Fifo,
    wb: Fifo,
    core: Core,
    stuffing: nat,
    done: bool,
    clientFd: Option<Interest>,
    mailFd: Option<Interest>)

  /** pop3_new and the registration by pop3_passive_accept. */
  function New(rbLimit: nat, wbLimit: nat): Session {
    Session(None, [], Fifo([], 0, rbLimit), Fifo([], 0, wbLimit), Core(None, None, Fresh(), 0, false, []), 0, false,
            Some(Write), None)
  }

  /** What select reports and what the system calls then answer: `got` is None for end of file or error; `sent` None for
      an error, a reset connection or another. */
  datatype Event =
    | Readable(fd: Fd, got: Option<Str>, env: Env)
    | Writable(fd: Fd, sent: Option<nat>, reset: bool)

  function InterestOf(s: Session, fd: Fd): Option<Interest> {
    if fd.Client? then s.clientFd else s.mailFd
  }

  /** selector_set_interest_key */
  function SetInterest(s: Session, fd: Fd, i: Interest): Session {
    if fd.Client? then s.(clientFd := Some(i)) else s.(mailFd := Some(i))
  }

  ghost predicate BuffersOk(s: Session) {
    && s.rb.Ok() && s.wb.Ok() && s.wb.limit >= MIN_BUFFER
    && BoxOk(s.core.box)
    && (s.current.None? ==> s.wb == Fifo([], 0, s.wb.limit))
    && s.stuffing < 5
  }

  // ---------------------------------------------------------------------------------------------
  // The engine.

  /** delete_mails looks at the marks up to max_index; before the first load there are no mails and no marks. */
  function ToErase(box: Box): seq<Str> {
    if box.maxIndex < |box.mails| && box.maxIndex < |box.dele| then MarkedPaths(box.mails, box.dele, box.maxIndex + 1) else []
  }

  /** The `on_arrival` of each state; WRITING_MAIL has none. */
  function Arrive(s: Session, st: State): Session {
    var noted := if st.WritingMail? then s else s.(core := s.core.(log := s.core.log + [Arrived(st)]));
    match st
    case Auth => noted.(wb := s.wb.Fill(WELCOME))
    case ReadingMail => noted.(done := false, stuffing := 0, mailFd := if s.mailFd.None? then Some(Read) else s.mailFd)
    case Update => noted.(core := noted.core.(log := noted.core.log + [Erased(ToErase(s.core.box))]))
    case _ => noted
  }

  /** handle_first */
  function Begin(s: Session): Session {
    if s.current.None? then Arrive(s.(current := Some(Auth)), Auth) else s
  }

  function Jump(s: Session, next: State): Session {
    if s.current == Some(next) then s else Arrive(s.(current := Some(next)), next)
  }

  /** pop3_done, when the handler asked for a final state. */
  function Finish(s: Session, next: State): Session {
    if next.Done? || next.Error? then s.(clientFd := None, mailFd := if s.core.mailOpen then None else s.mailFd) else s
  }

  // ---------------------------------------------------------------------------------------------
  // The handlers.

  function Batch(s: Session, got: Str, env: Env): Progress
    requires s.current.Some? && |s.wb.written| <= s.wb.limit
  {
    var cmds := T.Meanings(T.CutLines(s.line + got).lines);
    ExecAll(Progress(s.core, s.wb, s.current.value, true, true), cmds, s.current.value, env)
  }

  function ClientRead(s: Session, fd: Fd, got: Option<Str>, env: Env): (r: (Session, State))
    requires s.current.Some? && |s.wb.written| <= s.wb.limit
  {
    if got.None? then (s, Error)
    else
      var cut, p := T.CutLines(s.line + got.value), Batch(s, got.value, env);
      var t := s.(line := cut.rest, rb := s.rb.Reset(), core := p.core, wb := p.wb);
      (if cut.lines == [] then t else SetInterest(t, fd, Write), p.local)
  }

  /** The octets of a chunk that are copied: up to and including the first match. */
  function Copied(stuffing: nat, bytes: Str): Str {
    match Terminator.Scan(stuffing, bytes)
    case None => bytes
    case Some(n) => bytes[..n]
  }

  /** The last five octets are deleted and the terminator is written anew. */
  function Rewrite(wb: Fifo): Fifo {
    Fifo(wb.written[..|wb.written| - Min(|wb.written|, 5)] + Terminator.TERM, wb.read, wb.limit)
  }

  function FileRead(s: Session, fd: Fd, got: Option<Str>): (r: (Session, State))
    requires s.rb.read <= |s.rb.written| <= s.rb.limit && |s.wb.written| <= s.wb.limit
  {
    if got.None? then (s, Error)
    else
      var bytes := s.rb.Unread() + got.value;
      var copied := Copied(s.stuffing, bytes);
      var hit := Terminator.Scan(s.stuffing, bytes).Some?;
      var wb := s.wb.Push(copied);
      assert |s.rb.Fill(got.value).Unread()| == |bytes|;
      (SetInterest(s, fd, Write).(
         rb := s.rb.Fill(got.value).Take(|copied|),
         wb := if hit then Rewrite(wb) else wb,
         stuffing := if hit then 4 else Terminator.StateAfter(s.stuffing, bytes),
         done := s.done || hit),
       WritingMail)
  }

  function ClientWrite(s: Session, fd: Fd, sent: Option<nat>): (r: (Session, State))
    requires s.current.Some? && s.wb.read <= |s.wb.written| && (sent.Some? ==> sent.value <= |s.wb.Unread()|)
  {
    var ret := if s.current.value.Update? then Done else s.current.value;
    if sent.None? then (s, Error)
    else
      var t := s.(wb := s.wb.Take(sent.value));
      (if t.wb.Unread() == [] then SetInterest(t, fd, Read) else t, ret)
  }

  function MailWrite(s: Session, fd: Fd, sent: Option<nat>, reset: bool): (r: (Session, State))
    requires s.current.Some? && s.wb.read <= |s.wb.written| && (sent.Some? ==> sent.value <= |s.wb.Unread()|)
  {
    var t := if sent.None? then s else s.(wb := s.wb.Take(sent.value));
    var drained := sent.Some? && t.wb.Unread() == [];
    var u := if drained then SetInterest(t, fd, Read) else t;
    if s.done then (u.(mailFd := None, done := false, rb := s.rb.Reset(), wb := s.wb.Reset()), Transaction)
    else (u, if drained then ReadingMail else if sent.None? && reset then Error else s.current.value)
  }

  /** The state table: what each state does with readiness. DONE and ERROR have no handlers. */
  function React(s: Session, e: Event): (r: (Session, State))
    requires CanReact(s, e)
  {
    match e
    case Readable(fd, got, env) =>
      if HasTable(s.current.value) then ClientRead(s, fd, got, env)
      else if s.current.value.Update? then (s, Done)
      else FileRead(s, fd, got)
    case Writable(fd, sent, reset) =>
      if HasTable(s.current.value) || s.current.value.Update? then ClientWrite(s, fd, sent)
      else MailWrite(s, fd, sent, reset)
  }

  /** A handler is there, and the answer of the system call is one it can give. */
  ghost predicate CanReact(s: Session, e: Event) {
    && BuffersOk(s) && s.current.Some? && !s.current.value.Done? && !s.current.value.Error?
    && match e
       case Readable(_, got, env) =>
         (got.Some? ==> 0 < |got.value| <= s.rb.Room()) &&
         (got.Some? && HasTable(s.current.value) ==> Batch(s, got.value, env).defined)
       case Writable(_, sent, _) => sent.Some? ==> sent.value <= |s.wb.Unread()|
  }

  /** Select reports what is registered. */
  ghost predicate Enabled(s: Session, e: Event) {
    && InterestOf(s, e.fd) == Some(if e.Readable? then Read else Write)
    && BuffersOk(s) && CanReact(Begin(s), e)
  }

  /** pop3_read and pop3_write through stm_handler_read and stm_handler_write. */
  ghost function Step(s: Session, e: Event): Session
    requires Enabled(s, e)
  {
    var (t, next) := React(Begin(s), e);
    Finish(Jump(t, next), next)
  }

  /** Event `i` was enabled when it came, and what follows it is the step. */
  ghost predicate StepAt(states: seq<Session>, events: seq<Event>, i: nat)
    requires |states| == |events| + 1 && i < |events|
  {
    Enabled(states[i], events[i]) && states[i + 1] == Step(states[i], events[i])
  }

  /** A run: the sessions between the events. */
  ghost predicate IsRun(states: seq<Session>, events: seq<Event>) {
    |states| == |events| + 1 && forall i: nat | i < |events| :: StepAt(states, events, i)
  }

  /** A connection just accepted. */
  predicate IsNew(s: Session) {
    s.rb.limit >= MIN_BUFFER && s.wb.limit >= MIN_BUFFER && s == New(s.rb.limit, s.wb.limit)
  }

  /** A run from the acceptance of the connection. */
  ghost predicate IsSession(states: seq<Session>, events: seq<Event>) {
    IsRun(states, events) && IsNew(states[0])
  }

  /** The octets an event puts on the wire. */
  ghost function SentBy(s: Session, e: Event): Str
    requires Enabled(s, e)
  {
    if e.Writable? && e.sent.Some? then Begin(s).wb.Unread()[..e.sent.value] else []
  }

  /** The octets sent by the first `n` events of a run. */
  ghost function SentIn(states: seq<Session>, events: seq<Event>, n: nat): Str
    requires IsRun(states, events) && n <= |events|
  {
    if n == 0 then []
    else
      assert StepAt(states, events, n - 1);
      SentIn(states, events, n - 1) + SentBy(states[n - 1], events[n - 1])
  }
}
