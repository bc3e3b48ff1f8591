/** All sessions of the server and its list of connections: which sessions the list loses track of. */
module Lifetime {
  import opened Bytes
  import opened Commands
  import opened Session
  import opened SessionInvariant
  import C = Connections
  import Terminator
  import X = Transfer

  /** The mail cannot be read, end of file included, though its end was recognised and is still to be sent. */
  predicate ReadsPastEnd(s: Session, e: Event) {
    s.done && e.Readable? && e.got.None?
  }

  /** Exactly then a session ends with `done` set, and pop3_close does not destroy it. */
  lemma EndsDoneExactly(s: Session, e: Event)
    requires Inv(s) && !Final(s.current) && Enabled(s, e)
    ensures Final(Step(s, e).current) && Step(s, e).done <==> ReadsPastEnd(s, e)
  {
    hide Batch;
    hide Rewrite;
    hide Copied;
    hide Terminator.Scan;
    hide Terminator.StateAfter;
  }

  // ---------------------------------------------------------------------------------------------
  // The server.

  datatype Happening = Connect(fd: int, session: Session) | Deliver(fd: int, event: Event)

  /** The sessions that are open, and what the list of connections was told. */
  datatype Server = Server(live: map<int, Session>, ops: seq<C.Op>)

  ghost predicate CanHappen(w: Server, h: Happening) {
    match h
    case Connect(fd, s) => fd !in w.live && IsNew(s)
    case Deliver(fd, e) => fd in w.live && Enabled(w.live[fd], e)
  }

  /** pop3_passive_accept, pop3_read and pop3_write; a final state closes the descriptor. */
  ghost function Next(w: Server, h: Happening): Server
    requires CanHappen(w, h)
  {
    match h
    case Connect(fd, s) => Server(w.live[fd := s], w.ops + [C.Accept(fd)])
    case Deliver(fd, e) =>
      var s := Step(w.live[fd], e);
      if Final(s.current) then Server(w.live - {fd}, w.ops + [C.Close(fd, s.done)]) else Server(w.live[fd := s], w.ops)
  }

  /** Happening `i` was possible when it came, and what follows it is the next state of the server. */
  ghost predicate NextAt(ws: seq<Server>, hs: seq<Happening>, i: nat)
    requires |ws| == |hs| + 1 && i < |hs|
  {
    CanHappen(ws[i], hs[i]) && ws[i + 1] == Next(ws[i], hs[i])
  }

  ghost predicate IsServing(ws: seq<Server>, hs: seq<Happening>) {
    |ws| == |hs| + 1 && ws[0] == Server(map[], []) && forall i: nat | i < |hs| :: NextAt(ws, hs, i)
  }

  /** Happening `i` is a read past the end of a mail whose end is still to be sent. */
  predicate LosesAt(ws: seq<Server>, hs: seq<Happening>, i: nat)
    requires |ws| == |hs| + 1 && i < |hs|
  {
    hs[i].Deliver? && hs[i].fd in ws[i].live && ReadsPastEnd(ws[i].live[hs[i].fd], hs[i].event)
  }

  /** Sessions are reachable and have not ended; the operations are those of their descriptors. */
  ghost predicate Ok(w: Server) {
    && (forall fd | fd in w.live :: Inv(w.live[fd]) && !Final(w.live[fd].current))
    && C.Open(w.ops).AreOpen? && C.Open(w.ops).fds.Keys == w.live.Keys
  }

  /** Whether some close came with `done` set. */
  ghost predicate Lost(w: Server) {
    exists fd :: C.Close(fd, true) in w.ops
  }

  lemma OpenStep(ops: seq<C.Op>, op: C.Op)
    requires C.Open(ops).AreOpen? && C.Allowed(C.Open(ops).fds, op)
    ensures C.Open(ops + [op]).AreOpen?
    ensures C.Open(ops + [op]).fds.Keys ==
            if op.Accept? then C.Open(ops).fds.Keys + {op.fd} else C.Open(ops).fds.Keys - {op.fd}
  {
    assert (ops + [op])[..|ops|] == ops;
  }

  lemma Opened(w: Server, fd: int, s: Session)
    requires Ok(w) && fd !in w.live && Inv(s) && !Final(s.current)
    ensures var u := Server(w.live[fd := s], w.ops + [C.Accept(fd)]);
      Ok(u) && (Lost(u) <==> Lost(w))
  {
    OpenStep(w.ops, C.Accept(fd));
    hide Inv;
    hide Final;
  }

  lemma Continued(w: Server, fd: int, s: Session)
    requires Ok(w) && fd in w.live && Inv(s) && !Final(s.current)
    ensures var u := Server(w.live[fd := s], w.ops);
      Ok(u) && (Lost(u) <==> Lost(w))
  {
    hide Inv;
    hide Final;
    hide C.Open;
    assert w.live[fd := s].Keys == w.live.Keys;
  }

  lemma Closed(w: Server, fd: int, done: bool)
    requires Ok(w) && fd in w.live
    ensures var u := Server(w.live - {fd}, w.ops + [C.Close(fd, done)]);
      Ok(u) && (Lost(u) <==> Lost(w) || done)
  {
    OpenStep(w.ops, C.Close(fd, done));
    hide Inv;
    hide Final;
    assert C.Close(fd, done) in w.ops + [C.Close(fd, done)];
  }

  lemma NextOk(w: Server, h: Happening)
    requires Ok(w) && CanHappen(w, h)
    ensures Ok(Next(w, h))
    ensures Lost(Next(w, h)) <==> Lost(w) || (h.Deliver? && ReadsPastEnd(w.live[h.fd], h.event))
  {
    match h
    case Connect(fd, s) =>
      NewInv(s);
      Opened(w, fd, s);
    case Deliver(fd, e) =>
      var s := Step(w.live[fd], e);
      StepInv(w.live[fd], e);
      EndsDoneExactly(w.live[fd], e);
      hide Step;
      hide Inv;
      hide Enabled;
      hide Lost;
      hide ReadsPastEnd;
      if Final(s.current) {
        Closed(w, fd, s.done);
      } else {
        Continued(w, fd, s);
      }
  }

  ghost predicate LostBefore(ws: seq<Server>, hs: seq<Happening>, n: nat)
    requires |ws| == |hs| + 1 && n <= |hs|
  {
    exists i: nat :: i < n && LosesAt(ws, hs, i)
  }

  lemma LostStep(ws: seq<Server>, hs: seq<Happening>, n: nat)
    requires |ws| == |hs| + 1 && n < |hs|
    ensures LostBefore(ws, hs, n + 1) <==> LostBefore(ws, hs, n) || LosesAt(ws, hs, n)
  {
    hide LosesAt;
    if LosesAt(ws, hs, n) {
      assert n < n + 1;
    }
  }

  lemma {:induction false} ServingOk(ws: seq<Server>, hs: seq<Happening>, n: nat)
    requires IsServing(ws, hs) && n <= |hs|
    ensures Ok(ws[n]) && (Lost(ws[n]) <==> LostBefore(ws, hs, n))
  {
    if n > 0 {
      ServingOk(ws, hs, n - 1);
      LostStep(ws, hs, n - 1);
      hide LostBefore;
      assert NextAt(ws, hs, n - 1);
      NextOk(ws[n - 1], hs[n - 1]);
      hide Ok;
      hide Lost;
      hide ReadsPastEnd;
      hide Enabled;
      hide Next;
      hide IsServing;
    }
  }

  /** The list of connections, whatever the clients do: it holds exactly the sessions that are open if and only if no session
      read past the end of a mail whose end was still to be sent. Every open session is in it. */
  lemma ListIsLiveExactly(ws: seq<Server>, hs: seq<Happening>, n: nat)
    requires IsServing(ws, hs) && n <= |hs|
    ensures var open := C.Open(ws[n].ops);
      && open.AreOpen? && open.fds.Keys == ws[n].live.Keys
      && (forall fd | fd in ws[n].live :: C.Link(fd, open.fds[fd]) in C.RunOps(ws[n].ops))
      && (C.Exact(C.RunOps(ws[n].ops), open.fds) <==> forall i: nat | i < n :: !LosesAt(ws, hs, i))
  {
    ServingOk(ws, hs, n);
    C.OpenAreListed(ws[n].ops);
    C.ListIsOpenSet(ws[n].ops);
    hide LosesAt;
    hide C.Open;
    hide C.RunOps;
    hide C.Exact;
  }

  // ---------------------------------------------------------------------------------------------
  // How it comes about.

  /** The response to RETR is sent, the mail is read to its end, and then the client's descriptor reports the client gone, or
      anything it sent. */
  function Gone(s: Session, env: Env): seq<Event>
    requires s.wb.read <= |s.wb.written|
  {
    [Writable(Client, Some(|s.wb.Unread()|), false), Readable(MailFile, Some(Terminator.TERM), env), Readable(Client, None, env)]
  }

  lemma ResponseSent(s: Session, env: Env)
    requires X.Begun(s) && s.clientFd == Some(Write)
    ensures Enabled(s, Gone(s, env)[0])
    ensures Step(s, Gone(s, env)[0]) == s.(wb := s.wb.Reset(), clientFd := Some(Read))
  {
    assert s.wb.Take(|s.wb.Unread()|) == s.wb.Reset();
  }

  lemma EndRead(s: Session, env: Env)
    requires X.Begun(s) && s.clientFd == Some(Read) && s.rb.limit >= 5
    ensures var e := Readable(MailFile, Some(Terminator.TERM), env);
      Enabled(s, e) && Step(s, e).done && Step(s, e).current == Some(WritingMail) && Step(s, e).clientFd == Some(Read)
  {
    Terminator.ScanTerm(Terminator.START);
    hide Terminator.Scan;
    hide Terminator.StateAfter;
    hide Rewrite;
    var e := Readable(MailFile, Some(Terminator.TERM), env);
    assert s.rb.Unread() + Terminator.TERM == Terminator.TERM;
    assert React(s, e) == FileRead(s, MailFile, Some(Terminator.TERM));
  }

  /** From an accepted RETR: three events, and the session has ended with `done` set. */
  lemma GoneIsLost(s: Session, env: Env) returns (states: seq<Session>)
    requires X.Begun(s) && s.clientFd == Some(Write) && s.rb.limit >= 5
    ensures IsRun(states, Gone(s, env)) && states[0] == s && ReadsPastEnd(states[2], Gone(s, env)[2])
    ensures Final(states[3].current) && states[3].done
  {
    var events := Gone(s, env);
    var s1 := Step(s, events[0]);
    ResponseSent(s, env);
    StepInv(s, events[0]);
    var s2 := Step(s1, events[1]);
    EndRead(s1, env);
    StepInv(s1, events[1]);
    EndsDoneExactly(s2, events[2]);
    states := [s, s1, s2, Step(s2, events[2])];
    hide Step;
    hide Inv;
    assert StepAt(states, events, 0) && StepAt(states, events, 1) && StepAt(states, events, 2);
  }
}
