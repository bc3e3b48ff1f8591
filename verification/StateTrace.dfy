/** The engine's arrivals over whole runs. */
module StateTrace {
  import opened Bytes
  import opened Buffers
  import opened Commands
  import opened Session
  import opened SessionInvariant
  import T = Tokenizer

  /** The states whose arrival was handled, in order. */
  function Arrivals(log: seq<Obs>): seq<State> {
    if log == [] then []
    else
      var o := log[|log| - 1];
      Arrivals(log[..|log| - 1]) + if o.Arrived? then [o.state] else []
  }

  lemma {:induction false} ArrivalsSplit(a: seq<Obs>, b: seq<Obs>)
    ensures Arrivals(a + b) == Arrivals(a) + Arrivals(b)
  {
    if b == [] {
      assert a + b == a;
    } else {
      var b' := b[..|b| - 1];
      assert (a + b)[..|a + b| - 1] == a + b';
      ArrivalsSplit(a, b');
    }
  }

  /** The states a run visits: the initial one when the first event comes, then the one after each event. */
  function Visited(states: seq<Session>, n: nat): seq<State>
    requires n < |states|
  {
    if n == 0 then []
    else
      var before := if n == 1 then [Auth] else Visited(states, n - 1);
      before + if states[n].current.Some? then [states[n].current.value] else []
  }

  /** Repeats merged. */
  function Merged(visited: seq<State>): seq<State> {
    if visited == [] then []
    else
      var n := |visited| - 1;
      var before := Merged(visited[..n]);
      if n > 0 && visited[n] == visited[n - 1] then before else before + [visited[n]]
  }

  /** WRITING_MAIL has no arrival function. */
  function Handled(visited: seq<State>): seq<State> {
    if visited == [] then []
    else
      var n := |visited| - 1;
      Handled(visited[..n]) + if visited[n].WritingMail? then [] else [visited[n]]
  }

  lemma MergedStep(visited: seq<State>, st: State)
    ensures Merged(visited + [st]) == if visited != [] && visited[|visited| - 1] == st then Merged(visited) else Merged(visited) + [st]
  {
    assert (visited + [st])[..|visited|] == visited;
  }

  lemma HandledStep(visited: seq<State>, st: State)
    ensures Handled(visited + [st]) == Handled(visited) + if st.WritingMail? then [] else [st]
  {
    assert (visited + [st])[..|visited|] == visited;
  }

  lemma NoteArrival(log: seq<Obs>, o: Obs)
    ensures Arrivals(log + [o]) == Arrivals(log) + if o.Arrived? then [o.state] else []
  {
    assert (log + [o])[..|log|] == log;
  }

  lemma ArriveNotes(s: Session, st: State)
    ensures Arrivals(Arrive(s, st).core.log) == Arrivals(s.core.log) + if st.WritingMail? then [] else [st]
  {
    NoteArrival(s.core.log, Arrived(st));
    if st.Update? {
      NoteArrival(s.core.log + [Arrived(st)], Erased(ToErase(s.core.box)));
    } else if st.WritingMail? {
      assert Arrivals(s.core.log) + [] == Arrivals(s.core.log);
    }
  }

  /** Commands note logins and marks, never arrivals. */
  lemma HandlerNotesNoArrival(h: Handler, c: T.Command, cur: State, core: Core, env: Env)
    requires Defined(h, core, env)
    ensures Arrivals(RunHandler(h, c, cur, core, env).core.log) == Arrivals(core.log)
  {
    if Loads(h) {
      NoteArrival(core.log, Scanned(core.user.value, env.Mails(core.user)));
    }
    match h
    case List => ReadersLoad(c.arg1, cur, core, env);
    case Retr => ReadersLoad(c.arg1, cur, core, env);
    case Dele =>
      DeleMarks(c.arg1, cur, core, env);
      if Choose(Loaded(core, env).box, c.arg1).Message? {
        NoteArrival(Loaded(core, env).log, Marked(Choose(Loaded(core, env).box, c.arg1).index));
      }
    case Rset => NoteArrival(core.log, Cleared);
    case Pass =>
      if c.arg1.Some? && core.user.Some? {
        NoteArrival(core.log, LoggedIn(core.user.value, c.arg1.value, env.registry));
      }
    case _ =>
  }

  lemma {:induction false} BatchNotesNoArrival(p: Progress, cmds: seq<T.Command>, cur: State, env: Env)
    requires p.wb.Ok()
    ensures Arrivals(ExecAll(p, cmds, cur, env).core.log) == Arrivals(p.core.log)
  {
    if cmds != [] {
      var init, c := cmds[..|cmds| - 1], cmds[|cmds| - 1];
      BatchNotesNoArrival(p, init, cur, env);
      var q := ExecAll(p, init, cur, env);
      if Able(q, c, env) {
        HandlerNotesNoArrival(Find(TableOf(q.local), c.name), c, cur, q.core, env);
      }
    }
  }

  /** One event: the state it leads to is noted if it is another one. */
  lemma StepNotes(s: Session, e: Event)
    requires Inv(s) && Enabled(s, e)
    ensures var b, t := Begin(s), Step(s, e);
      && t.current.Some?
      && Arrivals(b.core.log) == Arrivals(s.core.log) + (if s.current.None? then [Auth] else [])
      && Arrivals(t.core.log) ==
         Arrivals(b.core.log) + if t.current == b.current || t.current.value.WritingMail? then [] else [t.current.value]
  {
    if s.current.None? {
      ArriveNotes(s.(current := Some(Auth)), Auth);
    } else {
      assert Arrivals(s.core.log) + [] == Arrivals(s.core.log);
    }
    var b := Begin(s);
    ReactCore(b, e);
    var (t, next) := React(b, e);
    if IsBatch(b, e) {
      var cmds := T.Meanings(T.CutLines(b.line + e.got.value).lines);
      BatchNotesNoArrival(Progress(b.core, b.wb, b.current.value, true, true), cmds, b.current.value, e.env);
    }
    MoveNotes(b, t, next);
  }

  lemma MoveNotes(b: Session, t: Session, next: State)
    requires t.current == b.current && b.current.Some? && Arrivals(t.core.log) == Arrivals(b.core.log)
    ensures var u := Finish(Jump(t, next), next);
      && u.current == Some(next)
      && Arrivals(u.core.log) == Arrivals(b.core.log) + if Some(next) == b.current || next.WritingMail? then [] else [next]
  {
    if t.current != Some(next) {
      ArriveNotes(t.(current := Some(next)), next);
    } else {
      assert Arrivals(b.core.log) + [] == Arrivals(b.core.log);
    }
  }

  /** The state after `n` events is the last one visited. */
  lemma {:induction false} LastVisited(states: seq<Session>, events: seq<Event>, n: nat)
    requires IsSession(states, events) && 0 < n < |states|
    ensures states[n].current.Some? && Visited(states, n) != []
    ensures Visited(states, n)[|Visited(states, n)| - 1] == states[n].current.value
    ensures Visited(states, n) == (if n == 1 then [Auth] else Visited(states, n - 1)) + [states[n].current.value]
  {
    assert StepAt(states, events, n - 1);
    RunInv(states, events, n - 1);
    StepNotes(states[n - 1], events[n - 1]);
  }

  /** One more visit. */
  lemma VisitNoted(before: seq<State>, st: State, noted: seq<State>, after: seq<State>)
    requires before != [] && noted == Handled(Merged(before))
    requires after == noted + if before[|before| - 1] == st || st.WritingMail? then [] else [st]
    ensures after == Handled(Merged(before + [st]))
  {
    MergedStep(before, st);
    HandledStep(Merged(before), st);
    hide Merged;
    hide Handled;
    assert noted + [] == noted;
  }

  lemma FirstVisit()
    ensures Handled(Merged([Auth])) == [Auth]
  {
    assert [Auth] == [] + [Auth];
    MergedStep([], Auth);
    HandledStep([], Auth);
  }

  /** What one event notes, from `s` by way of its beginning `b` to `t`. */
  predicate EventNotes(s: Session, b: Session, t: Session) {
    && t.current.Some?
    && Arrivals(b.core.log) == Arrivals(s.core.log) + (if s.current.None? then [Auth] else [])
    && Arrivals(t.core.log) ==
       Arrivals(b.core.log) + if t.current == b.current || t.current.value.WritingMail? then [] else [t.current.value]
  }

  /** Event `n - 1` of a run, seen in the log. */
  lemma EventNoted(states: seq<Session>, events: seq<Event>, n: nat)
    requires IsSession(states, events) && 0 < n < |states|
    ensures states[n].current.Some? && EventNotes(states[n - 1], Begin(states[n - 1]), states[n])
  {
    assert StepAt(states, events, n - 1);
    RunInv(states, events, n - 1);
    StepNotes(states[n - 1], events[n - 1]);
  }

  lemma FirstArrival(states: seq<Session>, events: seq<Event>, n: nat)
    requires IsSession(states, events) && n == 1 < |states|
    ensures Arrivals(states[n].core.log) == Handled(Merged(Visited(states, n)))
  {
    hide Handled;
    hide Merged;
    hide Visited;
    hide Arrivals;
    hide IsRun;
    hide Begin;
    hide IsNew;
    hide EventNotes;
    var s, t := states[0], states[n];
    NewNotes(s);
    EventNoted(states, events, n);
    LastVisited(states, events, n);
    FirstNoted(s, Begin(s), t);
  }

  /** The first event, from a session that has noted nothing. */
  lemma FirstNoted(s: Session, b: Session, t: Session)
    requires s.current.None? && b.current == Some(Auth) && t.current.Some? && Arrivals(s.core.log) == [] && EventNotes(s, b, t)
    ensures Arrivals(t.core.log) == Handled(Merged([Auth] + [t.current.value]))
  {
    hide Handled;
    hide Merged;
    hide Arrivals;
    FirstVisit();
    var none, st := Arrivals(s.core.log), t.current.value;
    assert none + [Auth] == [Auth];
    if st == Auth {
      assert t.current == b.current;
    }
    VisitNoted([Auth], st, Arrivals(b.core.log), Arrivals(t.core.log));
  }

  lemma NewNotes(s: Session)
    requires IsNew(s)
    ensures s.current.None? && Begin(s).current == Some(Auth) && Arrivals(s.core.log) == []
  {
  }

  lemma NextArrival(states: seq<Session>, events: seq<Event>, n: nat)
    requires IsSession(states, events) && 1 < n < |states|
    requires Arrivals(states[n - 1].core.log) == Handled(Merged(Visited(states, n - 1)))
    ensures Arrivals(states[n].core.log) == Handled(Merged(Visited(states, n)))
  {
    hide Handled;
    hide Merged;
    hide Visited;
    hide Arrivals;
    hide IsRun;
    EventNoted(states, events, n);
    LastVisited(states, events, n);
    LastVisited(states, events, n - 1);
    var s, t := states[n - 1], states[n];
    assert Begin(s) == s;
    hide Begin;
    NothingMore(Arrivals(s.core.log));
    VisitNoted(Visited(states, n - 1), t.current.value, Arrivals(s.core.log), Arrivals(t.core.log));
  }

  lemma NothingMore(a: seq<State>)
    ensures a + [] == a
  {
  }

  /** Over any run the log of arrivals is the sequence of visited states with repeats merged, starting with the initial
      state, apart from the one state that has no arrival function. */
  lemma {:induction false} ArrivalsAreVisits(states: seq<Session>, events: seq<Event>, n: nat)
    requires IsSession(states, events) && 0 < n < |states|
    ensures Arrivals(states[n].core.log) == Handled(Merged(Visited(states, n)))
  {
    if n == 1 {
      FirstArrival(states, events, n);
    } else {
      hide *;
      ArrivalsAreVisits(states, events, n - 1);
      NextArrival(states, events, n);
    }
  }
}
