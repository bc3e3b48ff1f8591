/** pop3nio.c, comparator.c, email.c and stm.c as the code runs them: one object, updated in place. Each method is tied to
    the session machine that the properties are proved about. */
module Pop3Server {
  import opened Bytes
  import opened Buffers
  import opened Commands
  import opened Maildrop
  import opened Session
  import S = Session
  import P = Pipelining
  import opened SessionInvariant
  import T = Tokenizer
  import R = Registry
  import Terminator

  class Pop3 {
    var current: Option<State>
    const rb: Buffer
    const wb: Buffer
    const parser: T.Parser
    var user: Option<Str>
    var pass: Option<Str>
    var mails: seq<Mail>
    const deleFlags: array<bool>
    var mailQty: nat
    var maxIndex: nat
    var totalOctates: nat
    var originalTotalOctates: nat
    var selectedMail: nat
    var mailOpen: bool
    var stuffing: nat
    var done: bool
    var clientFd: Option<Interest>
    var mailFd: Option<Interest>
    ghost var log: seq<Obs>

    ghost predicate Shape()
      reads this
    {
      rb != wb && rb.data != wb.data && deleFlags.Length == MAX_MAILS
    }

    /** What the handlers rely on. */
    ghost predicate Ready()
      reads this, rb, wb
    {
      Shape() && rb.Valid() && wb.Valid()
    }

    ghost predicate Valid()
      reads this, rb, wb, parser, parser.commands
    {
      Ready() && parser.Valid()
    }

    ghost function BoxOf(): Box
      reads `mails, `mailQty, `maxIndex, `totalOctates, `originalTotalOctates, deleFlags
    {
      Box(mails, deleFlags[..], mailQty, maxIndex, totalOctates, originalTotalOctates)
    }

    ghost function CoreOf(): Core
      reads `user, `pass, `mails, `mailQty, `maxIndex, `totalOctates, `originalTotalOctates, deleFlags, `selectedMail,
            `mailOpen, `log
    {
      Core(user, pass, BoxOf(), selectedMail, mailOpen, log)
    }

    /** The session this object is. */
    ghost function Abs(): Session
      requires rb.Shape() && wb.Shape()
      reads this, rb, rb.data, wb, wb.data, parser, deleFlags
    {
      Session(current, parser.line, rb.View(), wb.View(), CoreOf(), stuffing, done, clientFd, mailFd)
    }

    constructor (rawA: array<byte>, rawB: array<byte>)
      requires rawA != rawB && rawA.Length >= MIN_BUFFER && rawB.Length >= MIN_BUFFER
      ensures Valid() && Abs() == New(rawA.Length, rawB.Length)
    {
      rb := new Buffer(rawA, rawA.Length);
      wb := new Buffer(rawB, rawB.Length);
      parser := new T.Parser();
      deleFlags := new bool[MAX_MAILS](i => false);
      current, user, pass, mails := None, None, None, [];
      mailQty, maxIndex, totalOctates, originalTotalOctates, selectedMail := 0, 0, 0, 0, 0;
      mailOpen, stuffing, done, clientFd, mailFd := false, 0, false, Some(Write), None;
      log := [];
      new;
      assert deleFlags[..] == NoMarks();
    }

    // -------------------------------------------------------------------------------------------
    // email.c

    /** One directory entry; a marked mail is kept but not counted. */
    method LoadMail(mail: Mail)
      requires deleFlags.Length == MAX_MAILS && |mails| < MAX_MAILS
      modifies this`mails, this`mailQty, this`totalOctates
      ensures mails == old(mails) + [mail]
      ensures mailQty == old(mailQty) + if deleFlags[..][|old(mails)|] then 0 else 1
      ensures totalOctates == old(totalOctates) + if deleFlags[..][|old(mails)|] then 0 else mail.size
    {
      var i := |mails|;
      mails := mails + [mail];
      if !deleFlags[i] {
        mailQty := mailQty + 1;
        totalOctates := totalOctates + mail.size;
      }
    }

    /** load_mails: one pass over the directory. */
    method LoadMails(env: Env)
      requires deleFlags.Length == MAX_MAILS && env.Mails(user) != []
      modifies this`mails, this`mailQty, this`maxIndex, this`totalOctates, this`originalTotalOctates, this`log
      ensures CoreOf() == Loaded(old(CoreOf()), env)
    {
      ghost var dele := deleFlags[..];
      var prefix, dir := env.Prefix(user.value), env.Entries(user.value);
      mails := [];
      mailQty := 0;
      maxIndex := 0;
      totalOctates := 0;
      var i, d := 0, 0;
      NothingLoaded(prefix, dir, dele);
      hide Visible;
      hide Octets;
      hide Live;
      hide Listing;
      hide Hidden;
      while d < |dir| && i < MAX_MAILS
        invariant 0 <= d <= |dir| && 0 <= i <= MAX_MAILS && i == |mails|
        invariant mails == Visible(prefix, dir[..d])
        invariant mailQty == Live(dele, i) && totalOctates == Octets(mails, dele, i)
        invariant deleFlags[..] == dele && log == old(log)
      {
        VisibleStep(prefix, dir, d);
        var entry := dir[d];
        if !Hidden(entry.name) {
          var mail := Mail(prefix + entry.name, entry.size);
          OctetsOfMore(mails, mail, dele, i);
          LoadMail(mail);
          i := i + 1;
        }
        d := d + 1;
      }
      AllVisible(prefix, dir, d, mails);
      maxIndex := i - 1;
      originalTotalOctates := totalOctates;
      log := log + [Scanned(user.value, mails)];
    }

    // -------------------------------------------------------------------------------------------
    // comparator.c

    method WriteToBuffer(msg: Str) returns (ret: nat)
      requires wb.Shape()
      modifies wb`write, wb.data
      ensures wb.Shape() && (old(wb.Valid()) ==> wb.Valid())
      ensures wb.View() == Say(old(wb.View()), msg)
      ensures ret == if old(wb.View()).Room() < |msg| then 2 else 0
    {
      var at, count := wb.WritePtr();
      if count < |msg| {
        return 2;
      }
      wb.CopyIn(msg);
      wb.WriteAdv(|msg|);
      ret := 0;
    }

    /** One reply, as the handlers write it. */
    method Reply(msg: Str)
      requires wb.Valid()
      modifies wb`write, wb.data
      ensures wb.Valid() && wb.View() == SayAll(old(wb.View()), [msg])
    {
      SayOne(wb.View(), msg);
      var _ := WriteToBuffer(msg);
    }

    method RetrHandler(arg: Option<Str>, env: Env) returns (next: State)
      requires Ready() && current.Some? && Defined(Retr, CoreOf(), env)
      modifies this`mails, this`mailQty, this`maxIndex, this`totalOctates, this`originalTotalOctates, this`log, this`selectedMail,
               this`mailOpen, wb`write, wb.data
      ensures Ready()
      ensures var o := RunRetr(arg, current.value, old(CoreOf()), env);
        CoreOf() == o.core && next == o.next && wb.View() == SayAll(old(wb.View()), o.replies)
    {
      hide Octets;
      hide Live;
      hide SayAll;
      hide Numbers.Atoi;
      LoadMails(env);
      if arg.Some? {
        var index := Numbers.Atoi(arg.value);
        if index == 0 {
          Reply(INVALID_INDEX_MSG);
          return Transaction;
        }
        if index - 1 > maxIndex {
          Reply(NO_MSG_MSG);
          return Transaction;
        }
        if deleFlags[index - 1] {
          Reply(ALREADY_DELE_MSG);
          return Transaction;
        }
        selectedMail := index - 1;
        Reply(POSITIVE_MSG);
        if mails[selectedMail].path !in env.files {
          return Error;
        }
        mailOpen := true;
        return ReadingMail;
      }
      Reply(INVALID_INDEX_MSG);
      next := current.value;
    }

    method DeleHandler(arg: Option<Str>, env: Env) returns (next: State)
      requires Ready() && current.Some? && Defined(Dele, CoreOf(), env)
      modifies this`mails, this`mailQty, this`maxIndex, this`totalOctates, this`originalTotalOctates, this`log, deleFlags,
               wb`write, wb.data
      ensures Ready()
      ensures var o := RunDele(arg, current.value, old(CoreOf()), env);
        CoreOf() == o.core && next == o.next && wb.View() == SayAll(old(wb.View()), o.replies)
    {
      LoadMails(env);
      if arg.Some? {
        var index := Numbers.Atoi(arg.value);
        if index == 0 {
          Reply(INVALID_INDEX_MSG);
          return Transaction;
        }
        if index - 1 > maxIndex {
          Reply(NO_MSG_MSG);
          return Transaction;
        }
        if deleFlags[index - 1] {
          Reply(ALREADY_DELE_MSG);
          return Transaction;
        }
        deleFlags[index - 1] := true;
        log := log + [Marked(index - 1)];
        Reply(DELE_MSG);
      } else {
        Reply(INVALID_INDEX_MSG);
      }
      next := current.value;
    }

    /** The marks up to the last index go. */
    method ClearMarks()
      requires deleFlags.Length == MAX_MAILS && maxIndex < MAX_MAILS
      modifies deleFlags
      ensures deleFlags[..] == RunRset(Transaction, old(CoreOf())).core.box.dele
    {
      var i := 0;
      while i <= maxIndex
        invariant 0 <= i <= maxIndex + 1
        invariant forall j | 0 <= j < MAX_MAILS :: deleFlags[j] == if j < i then false else old(deleFlags[j])
      {
        deleFlags[i] := false;
        i := i + 1;
      }
    }

    method RsetHandler() returns (next: State)
      requires Ready() && current.Some? && maxIndex < MAX_MAILS
      modifies this`mailQty, this`totalOctates, this`log, deleFlags, wb`write, wb.data
      ensures Ready()
      ensures var o := RunRset(current.value, old(CoreOf()));
        CoreOf() == o.core && next == o.next && wb.View() == SayAll(old(wb.View()), o.replies)
    {
      hide ListHeader;
      ClearMarks();
      mailQty := maxIndex + 1;
      totalOctates := originalTotalOctates;
      log := log + [Cleared];
      Reply(ListHeader(mailQty, totalOctates));
      next := current.value;
    }

    method ReplyRow(i: nat, ghost v: Fifo, ghost said: seq<Str>) returns (ghost more: seq<Str>)
      requires Ready() && i < |mails| && i < MAX_MAILS && |v.written| <= v.limit && wb.View() == SayAll(v, said)
      modifies wb`write, wb.data
      ensures Ready() && wb.View() == SayAll(v, more)
      ensures more == if deleFlags[..][i] then said else said + [ListRow(Row(i + 1, mails[i].size))]
    {
      more := said;
      if !deleFlags[i] {
        var row := Row(i + 1, mails[i].size);
        SayMore(v, said, ListRow(row));
        var _ := WriteToBuffer(ListRow(row));
        more := said + [ListRow(row)];
      }
    }

    /** The rows of LIST, one write each, between header and end. */
    method ReplyRows()
      requires Ready() && maxIndex < |mails| <= MAX_MAILS && |mails| == maxIndex + 1
      modifies wb`write, wb.data
      ensures Ready()
      ensures wb.View() == SayAll(old(wb.View()),
                                  [ListHeader(mailQty, totalOctates)] + ListRows(Rows(mails, deleFlags[..], |mails|)) + [LIST_END])
    {
      ghost var v := wb.View();
      ghost var said := [ListHeader(mailQty, totalOctates)];
      Reply(ListHeader(mailQty, totalOctates));
      hide ListHeader;
      hide ListRow;
      hide SayAll;
      ghost var dele := deleFlags[..];
      RowsMore(mails, dele, 0);
      hide Rows;
      hide Say;
      var i := 0;
      while i <= maxIndex
        invariant 0 <= i <= maxIndex + 1 && wb.Valid()
        invariant said == [ListHeader(mailQty, totalOctates)] + ListRows(Rows(mails, dele, i))
        invariant said != [] && said[0] == ListHeader(mailQty, totalOctates) && wb.View() == SayAll(v, said)
      {
        RowsMore(mails, dele, i);
        RowSaid(Rows(mails, dele, i), Row(i + 1, mails[i].size), said[0]);
        said := ReplyRow(i, v, said);
        i := i + 1;
      }
      SayMore(v, said, LIST_END);
      var _ := WriteToBuffer(LIST_END);
    }

    method ListHandler(arg: Option<Str>, env: Env) returns (next: State)
      requires Ready() && Defined(List, CoreOf(), env)
      modifies this`mails, this`mailQty, this`maxIndex, this`totalOctates, this`originalTotalOctates, this`log, wb`write, wb.data
      ensures Ready()
      ensures var o := RunList(arg, old(CoreOf()), env);
        CoreOf() == o.core && next == o.next && wb.View() == SayAll(old(wb.View()), o.replies)
    {
      hide Octets;
      hide Live;
      hide SayAll;
      hide Rows;
      hide Numbers.Atoi;
      hide ListHeader;
      hide StatLine;
      LoadMails(env);
      if arg.Some? {
        var index := Numbers.Atoi(arg.value);
        if index == 0 {
          Reply(INVALID_INDEX_MSG);
          return Transaction;
        }
        if index - 1 > maxIndex {
          // the mark and the size read here are whatever lies behind the arrays; the range is checked afterwards
          var marked := if index - 1 < MAX_MAILS then deleFlags[index - 1] else env.wildMark;
          SayPair(wb.View(), if marked then NO_MSG_MSG else StatLine(index, env.wildSize), NO_MSG_MSG);
          var _ := WriteToBuffer(if marked then NO_MSG_MSG else StatLine(index, env.wildSize));
          var _ := WriteToBuffer(NO_MSG_MSG);
          return Transaction;
        }
        if !deleFlags[index - 1] {
          Reply(StatLine(index, mails[index - 1].size));
        } else {
          Reply(NO_MSG_MSG);
        }
      } else {
        ReplyRows();
      }
      next := Transaction;
    }

    method StatHandler(env: Env) returns (next: State)
      requires Ready() && Defined(Stat, CoreOf(), env)
      modifies this`mails, this`mailQty, this`maxIndex, this`totalOctates, this`originalTotalOctates, this`log, wb`write, wb.data
      ensures Ready() && next == Transaction && CoreOf() == Loaded(old(CoreOf()), env)
      ensures wb.View() == SayAll(old(wb.View()), [StatLine(mailQty, totalOctates)])
    {
      LoadMails(env);
      Reply(StatLine(mailQty, totalOctates));
      next := Transaction;
    }

    /** The write status of the refusal is returned where a state is expected. */
    method PassHandler(arg: Option<Str>, env: Env, clients: R.Node?) returns (next: State)
      requires Ready() && R.ValidList(clients) && R.List(clients) == env.registry
      modifies this`pass, this`log, wb`write, wb.data
      ensures Ready()
      ensures var o := RunPass(arg, old(CoreOf()), env);
        && CoreOf() == o.core && wb.View() == SayAll(old(wb.View()), o.replies)
        && next == if arg.Some? && user.None? && old(wb.View()).Room() < |PASS_NOUSER_MSG| then ReadingMail else o.next
    {
      if arg.Some? {
        if user == None {
          SayOne(wb.View(), PASS_NOUSER_MSG);
          var ret := WriteToBuffer(PASS_NOUSER_MSG);
          return if ret == 2 then ReadingMail else Auth;
        }
        var ok := R.ValidateUser(clients, user.value, arg.value);
        if ok {
          pass := arg;
          log := log + [LoggedIn(user.value, arg.value, env.registry)];
          Reply(LOGIN_MSG);
          return Transaction;
        }
      }
      Reply(AUTH_ERROR_MSG);
      next := Auth;
    }

    method CommandHandler(h: Handler, c: T.Command, env: Env, clients: R.Node?) returns (next: State)
      requires Ready() && current.Some? && Defined(h, CoreOf(), env)
      requires R.ValidList(clients) && R.List(clients) == env.registry
      modifies this`user, this`pass, this`mails, this`mailQty, this`maxIndex, this`totalOctates, this`originalTotalOctates,
               this`selectedMail, this`mailOpen, this`log, deleFlags, wb`write, wb.data
      ensures Ready()
      ensures var o := RunHandler(h, c, current.value, old(CoreOf()), env);
        && CoreOf() == o.core && wb.View() == SayAll(old(wb.View()), o.replies)
        && next == if PassBeforeUser(h, c, old(CoreOf())) && old(wb.View()).Room() < |PASS_NOUSER_MSG| then ReadingMail else o.next
    {
      match h {
        case AuthCapa =>
          Reply(AUTH_CAPA_MSG);
          next := Auth;
        case User =>
          if c.arg1.Some? {
            user := c.arg1;
          }
          Reply(POSITIVE_MSG);
          next := Auth;
        case Pass => next := PassHandler(c.arg1, env, clients);
        case AuthQuit =>
          Reply(AUTH_QUIT_MSG);
          next := Done;
        case Noop =>
          Reply(POSITIVE_MSG);
          next := current.value;
        case Stat => next := StatHandler(env);
        case List => next := ListHandler(c.arg1, env);
        case Retr => next := RetrHandler(c.arg1, env);
        case Dele => next := DeleHandler(c.arg1, env);
        case Rset => next := RsetHandler();
        case TransCapa =>
          Reply(TRANS_CAPA_MSG);
          next := Transaction;
        case TransQuit =>
          Reply(POSITIVE_MSG);
          next := Update;
        case Invalid =>
          Reply(INVALID_COMMAND_MSG);
          next := current.value;
      }
    }

    // -------------------------------------------------------------------------------------------
    // stm.c and the arrivals of pop3nio.c

    /** selector_set_interest_key */
    method SetInterest(fd: Fd, i: Interest)
      modifies this`clientFd, this`mailFd
      ensures clientFd == if fd.Client? then Some(i) else old(clientFd)
      ensures mailFd == if fd.Client? then old(mailFd) else Some(i)
    {
      if fd.Client? {
        clientFd := Some(i);
      } else {
        mailFd := Some(i);
      }
    }

    /** delete_mails: the files it removes. */
    method DeleteMails() returns (removed: seq<Str>)
      requires deleFlags.Length == MAX_MAILS && BoxOk(BoxOf())
      ensures removed == ToErase(BoxOf())
    {
      removed := [];
      var i := 0;
      while i <= maxIndex
        invariant 0 <= i <= maxIndex + 1
        invariant removed == if mails == [] then [] else MarkedPaths(mails, deleFlags[..], i)
      {
        if deleFlags[i] {
          removed := removed + [mails[i].path];
        }
        i := i + 1;
      }
    }

    /** auth_init: the welcome. */
    method AuthInit()
      requires wb.Valid() && |WELCOME| <= wb.View().Room()
      modifies wb`write, wb.data
      ensures wb.Valid() && wb.View() == old(wb.View()).Fill(WELCOME)
    {
      wb.CopyIn(WELCOME);
      wb.WriteAdv(|WELCOME|);
    }

    /** reading_init; the selector refuses to register the mail a second time. */
    method ReadingInit()
      modifies this`done, this`stuffing, this`mailFd
      ensures !done && stuffing == 0 && mailFd == if old(mailFd).None? then Some(Read) else old(mailFd)
    {
      done := false;
      stuffing := 0;
      if mailFd == None {
        mailFd := Some(Read);
      }
    }

    ghost method Note(o: Obs)
      modifies this`log
      ensures log == old(log) + [o] && CoreOf() == old(CoreOf()).(log := old(CoreOf()).log + [o]) && BoxOf() == CoreOf().box
    {
      log := log + [o];
    }

    method OnArrival(st: State)
      requires Valid() && BoxOk(BoxOf()) && (st.Auth? ==> |WELCOME| <= wb.View().Room())
      modifies this`log, this`done, this`stuffing, this`mailFd, wb`write, wb.data
      ensures Valid() && Abs() == S.Arrive(old(Abs()), st)
    {
      hide ToErase;
      hide WELCOME;
      hide BoxOk;
      hide BoxOf;
      hide CoreOf;
      if st == WritingMail {
        return;
      }
      Note(Arrived(st));
      if st == Auth {
        AuthInit();
      } else if st == ReadingMail {
        ReadingInit();
      } else if st == Update {
        var removed := DeleteMails();
        Note(Erased(removed));
      }
    }

    method HandleFirst()
      requires Valid() && BoxOk(BoxOf()) && (current.None? ==> |WELCOME| <= wb.View().Room())
      modifies this`current, this`log, this`done, this`stuffing, this`mailFd, wb`write, wb.data
      ensures Valid() && Abs() == S.Begin(old(Abs()))
    {
      if current == None {
        current := Some(Auth);
        OnArrival(Auth);
      }
    }

    method Jump(next: State)
      requires Valid() && BoxOk(BoxOf()) && current.Some? && (next.Auth? ==> current.value.Auth?)
      modifies this`current, this`log, this`done, this`stuffing, this`mailFd, wb`write, wb.data
      ensures Valid() && Abs() == S.Jump(old(Abs()), next)
    {
      if current != Some(next) {
        current := Some(next);
        OnArrival(next);
      }
    }

    method Pop3Done()
      modifies this`clientFd, this`mailFd
      ensures clientFd == None && mailFd == if mailOpen then None else old(mailFd)
    {
      if mailOpen {
        mailFd := None;
      }
      clientFd := None;
    }

    // -------------------------------------------------------------------------------------------
    // pop3nio.c: the handlers of the states

    /** A complete line: the command found for it runs and the event is cleared. */
    method Dispatch(fd: Fd, local: State, ghost line: Str, ghost p: Progress, env: Env, clients: R.Node?) returns (next: State)
      requires Ready() && parser.Completed(line) && parser.line == [] && current.Some?
      requires p.core == CoreOf() && p.wb == wb.View() && p.local == local && Determined(p, line, current.value, env)
      requires R.ValidList(clients) && R.List(clients) == env.registry
      modifies this`user, this`pass, this`mails, this`mailQty, this`maxIndex, this`totalOctates, this`originalTotalOctates,
               this`selectedMail, this`mailOpen, this`log, this`clientFd, this`mailFd, deleFlags, wb`write, wb.data,
               parser`complete, parser.commands
      ensures Valid() && parser.line == []
      ensures Ran(p, line, current.value, env, CoreOf(), wb.View(), next)
      ensures clientFd == if fd.Client? then Some(Write) else old(clientFd)
      ensures mailFd == if fd.Client? then old(mailFd) else Some(Write)
    {
      hide RunHandler;
      hide Find;
      hide SayAll;
      hide T.Meaning;
      hide TableOf;
      hide R.List;
      SetInterest(fd, Write);
      var c := parser.Taken();
      var h := Comparator(c.name, local);
      next := CommandHandler(h, c, env, clients);
      parser.Restart();
    }

    /** The body of the reading loop: one octet is read and fed, and the command it completes, if it does, runs. */
    method ReadOctet(fd: Fd, local: State, ghost p: Progress, env: Env, clients: R.Node?) returns (next: State)
      requires Valid() && MayRead(Abs(), p, local, env)
      requires R.ValidList(clients) && R.List(clients) == env.registry
      modifies this`user, this`pass, this`mails, this`mailQty, this`maxIndex, this`totalOctates, this`originalTotalOctates,
               this`selectedMail, this`mailOpen, this`log, this`clientFd, this`mailFd, deleFlags, rb, rb.data, wb`write,
               wb.data, parser, parser.commands
      ensures Valid() && OctetRead(old(Abs()), fd, p, env, Abs(), next)
    {
      hide Exec;
      hide T.Meaning;
      hide BoxOf;
      hide CoreOf;
      hide R.List;
      hide OctetRead;
      ghost var s, line := Abs(), parser.line;
      var c := rb.Read();
      parser.Feed(c);
      next := local;
      if parser.complete {
        next := Dispatch(fd, local, line[..|line| - 1], p, env, clients);
        OctetEnds(s, fd, p, env, Abs(), next);
      } else {
        OctetStays(s, fd, p, env, Abs(), next);
      }
    }

    /** client_read */
    method ClientRead(fd: Fd, got: Option<Str>, env: Env, clients: R.Node?) returns (next: State)
      requires Valid() && current.Some? && HasTable(current.value) && rb.View() == rb.View().Reset()
      requires got.Some? ==> 0 < |got.value| <= rb.View().Room() && S.Batch(Abs(), got.value, env).defined
      requires R.ValidList(clients) && R.List(clients) == env.registry
      modifies this, rb, rb.data, wb, wb.data, parser, parser.commands, deleFlags
      ensures Valid() && (Abs(), next) == S.ClientRead(old(Abs()), fd, got, env)
    {
      hide S.Batch;
      hide BoxOf;
      hide R.List;
      hide T.CutLines;
      next := current.value;
      if got == None {
        return Error;
      }
      ghost var s := Abs();
      rb.CopyIn(got.value);
      rb.WriteAdv(|got.value|);
      next := ReadLoop(s, fd, got.value, env, clients);
    }

    /** The reading loop, over the chunk that lies in the read buffer of what was the session `s`. */
    method ReadLoop(ghost s: Session, fd: Fd, ghost chunk: Str, env: Env, clients: R.Node?) returns (next: State)
      requires Valid() && s.current.Some? && s.wb.Ok() && chunk != [] && S.Batch(s, chunk, env).defined
      requires Abs() == s.(rb := Abs().rb) && rb.View().Unread() == chunk
      requires R.ValidList(clients) && R.List(clients) == env.registry
      modifies this, rb, rb.data, wb, wb.data, parser, parser.commands, deleFlags
      ensures Valid() && ReadSoFar(s, fd, chunk, Abs(), next, env) && rb.View() == old(rb.View()).Take(|chunk|)
    {
      hide S.Batch;
      hide OctetRead;
      hide ReadSoFar;
      hide AfterOctet;
      hide BoxOf;
      hide CoreOf;
      hide R.List;
      hide R.ValidList;
      hide T.EndsLine;
      hide T.CutLines;
      next := current.value;
      ghost var full, taken := rb.View(), 0;
      NothingTaken(s, fd, Abs(), env);
      while rb.CanRead()
        invariant Valid() && taken <= |chunk| && rb.View() == full.Take(taken) && current == s.current
        invariant ReadSoFar(s, fd, chunk[..taken], Abs(), next, env)
        invariant R.ValidList(clients) && R.List(clients) == env.registry
        decreases |chunk| - taken
      {
        TakeTwice(full, taken, 1);
        ghost var t, local := Abs(), next;
        OneMore(s, fd, chunk, taken, t, next, env);
        next := ReadOctet(fd, next, S.Batch(s, chunk[..taken], env), env, clients);
        OneMoreRead(s, fd, chunk, taken, t, local, Abs(), next, env);
        taken := taken + 1;
      }
      assert chunk[..|chunk|] == chunk;
    }

    /** The terminator just copied is deleted and written again. */
    method RewriteTerminator()
      requires wb.Valid() && |wb.View().written| >= 5
      modifies wb`write, wb.data
      ensures wb.Valid() && wb.View() == Rewrite(old(wb.View()))
    {
      ghost var cut := wb.View().Drop(5);
      wb.DeleteN(5);
      wb.Write(CR);
      wb.Write(LF);
      wb.Write(DOT);
      wb.Write(CR);
      wb.Write(LF);
      PushTerm(cut);
    }

    /** One octet goes to the write buffer and through the automaton. */
    method CopyOctet() returns (hit: bool)
      requires Ready() && rb.View().Unread() != []
      modifies this`stuffing, rb, rb.data, wb`write, wb.data
      ensures Ready() && rb.View() == old(rb.View()).Take(1)
      ensures wb.View() == old(wb.View()).Push([old(rb.View()).Unread()[0]])
      ensures stuffing == Terminator.Next(old(stuffing), old(rb.View()).Unread()[0])
      ensures hit == Terminator.Hit(old(stuffing), old(rb.View()).Unread()[0])
    {
      var c := rb.Read();
      wb.Write(c);
      stuffing, hit := Terminator.ByteStuffer(c, stuffing);
    }

    /** The copying loop: up to and including a terminator, or all there is. */
    method CopyChunk(ghost bytes: Str)
      requires Ready() && rb.View().Unread() == bytes != [] && Rewritable(wb.View(), stuffing, bytes)
      modifies this`stuffing, this`done, rb, rb.data, wb`write, wb.data
      ensures Ready() && rb.View() == old(rb.View()).Take(|Copied(old(stuffing), bytes)|)
      ensures wb.View() == CopiedTo(old(wb.View()), old(stuffing), bytes)
      ensures stuffing == if Hits(old(stuffing), bytes) then 4 else Terminator.StateAfter(old(stuffing), bytes)
      ensures done == (old(done) || Hits(old(stuffing), bytes))
    {
      ghost var full, w, k, taken := rb.View(), wb.View(), stuffing, 0;
      NothingCopied(w, k, bytes);
      hide Terminator.Scan;
      hide Terminator.StateAfter;
      hide Copied;
      hide Rewrite;
      hide CopiedSoFar;
      hide Hits;
      while rb.CanRead()
        invariant Ready() && taken <= |bytes| && rb.View() == full.Take(taken)
        invariant CopiedSoFar(w, k, bytes[..taken], wb.View(), stuffing) && done == old(done)
        decreases |bytes| - taken
      {
        TakeTwice(full, taken, 1);
        OneMoreCopied(w, k, bytes, taken, wb.View(), stuffing);
        var hit := CopyOctet();
        taken := taken + 1;
        if hit {
          RewriteTerminator();
          done := true;
          return;
        }
      }
      AllCopied(w, k, bytes, wb.View(), stuffing);
    }

    /** filesystem_read */
    method FilesystemRead(fd: Fd, got: Option<Str>) returns (next: State)
      requires Ready() && (got.Some? ==> 0 < |got.value| <= rb.View().Room())
      requires got.Some? ==> Rewritable(wb.View(), stuffing, rb.View().Unread() + got.value)
      modifies this`stuffing, this`done, this`clientFd, this`mailFd, rb, rb.data, wb`write, wb.data
      ensures Ready() && (Abs(), next) == S.FileRead(old(Abs()), fd, got)
    {
      hide Terminator.Scan;
      hide Terminator.StateAfter;
      hide Copied;
      hide Rewrite;
      hide Rewritable;
      hide BoxOf;
      hide CoreOf;
      next := WritingMail;
      if got == None {
        return Error;
      }
      FillTwice(rb.View(), got.value, []);
      rb.CopyIn(got.value);
      rb.WriteAdv(|got.value|);
      SetInterest(fd, Write);
      CopyChunk(rb.View().Unread());
    }

    /** What both handlers do with the octets `send` took. */
    method Advance(fd: Fd, n: nat) returns (drained: bool)
      requires Ready() && n <= |wb.View().Unread()|
      modifies this`clientFd, this`mailFd, wb, wb.data
      ensures Ready() && wb.View() == old(wb.View()).Take(n) && drained == (wb.View().Unread() == [])
      ensures clientFd == if drained && fd.Client? then Some(Read) else old(clientFd)
      ensures mailFd == if drained && fd.MailFile? then Some(Read) else old(mailFd)
    {
      wb.ReadAdv(n);
      drained := !wb.CanRead();
      if drained {
        SetInterest(fd, Read);
      }
    }

    /** client_write */
    method ClientWrite(fd: Fd, sent: Option<nat>) returns (next: State)
      requires Ready() && current.Some? && (sent.Some? ==> sent.value <= |wb.View().Unread()|)
      modifies this`clientFd, this`mailFd, wb, wb.data
      ensures Ready() && (Abs(), next) == S.ClientWrite(old(Abs()), fd, sent)
    {
      hide BoxOf;
      hide CoreOf;
      hide Fifo.Take;
      next := current.value;
      if sent == None {
        next := Error;
      } else {
        var _ := Advance(fd, sent.value);
      }
      next := if next == Update then Done else next;
    }

    /** mail_write */
    method MailWrite(fd: Fd, sent: Option<nat>, reset: bool) returns (next: State)
      requires Ready() && current.Some? && (sent.Some? ==> sent.value <= |wb.View().Unread()|)
      modifies this`clientFd, this`mailFd, this`done, rb, wb, wb.data
      ensures Ready() && (Abs(), next) == S.MailWrite(old(Abs()), fd, sent, reset)
    {
      hide BoxOf;
      hide CoreOf;
      hide Fifo.Take;
      next := current.value;
      if sent == None {
        next := if reset then Error else next;
      } else {
        var drained := Advance(fd, sent.value);
        next := if drained then ReadingMail else next;
      }
      if done {
        EndMail();
        return Transaction;
      }
    }

    /** The end of a mail: its descriptor is unregistered and both buffers start over. */
    method EndMail()
      requires Ready()
      modifies this`mailFd, this`done, rb, wb
      ensures Ready() && mailFd == None && !done && rb.View() == old(rb.View()).Reset() && wb.View() == old(wb.View()).Reset()
    {
      mailFd := None;
      done := false;
      rb.Reset();
      wb.Reset();
    }

    /** pop3_read through stm_handler_read. `got` is what `recv` or `read` gives. */
    method Pop3Read(fd: Fd, got: Option<Str>, env: Env, clients: R.Node?)
      requires Valid() && Inv(Abs()) && Enabled(Abs(), Readable(fd, got, env))
      requires R.ValidList(clients) && R.List(clients) == env.registry
      modifies this, rb, rb.data, wb, wb.data, parser, parser.commands, deleFlags
      ensures Valid() && Abs() == Step(old(Abs()), Readable(fd, got, env)) && Inv(Abs())
    {
      hide Inv;
      hide Enabled;
      hide CanReact;
      hide S.ClientRead;
      hide S.FileRead;
      hide S.Begin;
      hide S.Jump;
      hide BoxOk;
      hide BoxOf;
      hide R.List;
      hide Rewritable;
      EnabledStep(Abs(), Readable(fd, got, env));
      HandleFirst();
      ReadsMay(Abs(), fd, got, env);
      var next: State;
      if HasTable(current.value) {
        next := ClientRead(fd, got, env, clients);
      } else if current.value == Update {
        next := Done;
      } else {
        next := FilesystemRead(fd, got);
      }
      MoveOn(next);
    }

    /** pop3_write through stm_handler_write. `sent` is what `send` accepts. */
    method Pop3Write(fd: Fd, sent: Option<nat>, reset: bool)
      requires Valid() && Inv(Abs()) && Enabled(Abs(), Writable(fd, sent, reset))
      modifies this, rb, rb.data, wb, wb.data
      ensures Valid() && Abs() == Step(old(Abs()), Writable(fd, sent, reset)) && Inv(Abs())
    {
      hide Inv;
      hide Enabled;
      hide CanReact;
      hide S.ClientWrite;
      hide S.MailWrite;
      hide S.Begin;
      hide S.Jump;
      hide BoxOk;
      hide BoxOf;
      EnabledStep(Abs(), Writable(fd, sent, reset));
      HandleFirst();
      WritesMay(Abs(), fd, sent, reset);
      var next: State;
      if HasTable(current.value) || current.value == Update {
        next := ClientWrite(fd, sent);
      } else {
        next := MailWrite(fd, sent, reset);
      }
      MoveOn(next);
    }

    /** jump, and pop3_done in the final states. */
    method MoveOn(next: State)
      requires Valid() && BoxOk(BoxOf()) && current.Some? && (next.Auth? ==> current.value.Auth?)
      modifies this`current, this`log, this`done, this`stuffing, this`mailFd, this`clientFd, wb`write, wb.data
      ensures Valid() && Abs() == Finish(S.Jump(old(Abs()), next), next)
    {
      hide BoxOk;
      hide BoxOf;
      hide S.Jump;
      Jump(next);
      if next == Done || next == Error {
        Pop3Done();
      }
    }
  }

  /** What the entry points rely on. */
  lemma EnabledStep(s: Session, e: Event)
    requires Inv(s) && Enabled(s, e)
    ensures BoxOk(s.core.box) && (s.current.None? ==> |WELCOME| <= s.wb.Room())
    ensures Inv(S.Begin(s)) && CanReact(S.Begin(s), e) && InterestOf(S.Begin(s), e.fd).Some?
    ensures Inv(Step(s, e))
  {
    assert |WELCOME| == 18;
    BeginInv(s);
    StepInv(s, e);
  }

  lemma ReadsMay(s: Session, fd: Fd, got: Option<Str>, env: Env)
    requires Inv(s) && CanReact(s, Readable(fd, got, env)) && InterestOf(s, fd).Some?
    ensures s.current.Some? && (got.Some? ==> 0 < |got.value| <= s.rb.Room())
    ensures HasTable(s.current.value) ==> s.rb == s.rb.Reset() && (got.Some? ==> S.Batch(s, got.value, env).defined)
    ensures !HasTable(s.current.value) && !s.current.value.Update? && got.Some? ==>
              Rewritable(s.wb, s.stuffing, s.rb.Unread() + got.value)
    ensures var (t, next) := React(s, Readable(fd, got, env));
      BoxOk(t.core.box) && t.current == s.current && (next.Auth? ==> s.current.value.Auth?)
  {
    ReactReacts(s, Readable(fd, got, env));
    if !HasTable(s.current.value) && !s.current.value.Update? {
      HitIsWhole(s, got);
    }
  }

  lemma WritesMay(s: Session, fd: Fd, sent: Option<nat>, reset: bool)
    requires Inv(s) && CanReact(s, Writable(fd, sent, reset)) && InterestOf(s, fd).Some?
    ensures s.current.Some? && (sent.Some? ==> sent.value <= |s.wb.Unread()|)
    ensures var (t, next) := React(s, Writable(fd, sent, reset));
      BoxOk(t.core.box) && t.current == s.current && (next.Auth? ==> s.current.value.Auth?)
  {
    ReactReacts(s, Writable(fd, sent, reset));
  }

  /** A terminator recognised in `bytes` is in the write buffer to be deleted, five octets at least. */
  ghost predicate Rewritable(wb: Fifo, stuffing: nat, bytes: Str)
    requires |wb.written| <= wb.limit
  {
    Terminator.Scan(stuffing, bytes).Some? ==> |wb.Push(Copied(stuffing, bytes)).written| >= 5
  }

  lemma HitIsWhole(s: Session, got: Option<Str>)
    requires Inv(s) && (s.current == Some(ReadingMail) || s.current == Some(WritingMail))
    requires got.Some? ==> 0 < |got.value| <= s.rb.Room()
    ensures got.Some? ==> Rewritable(s.wb, s.stuffing, s.rb.Unread() + got.value)
  {
    if got.Some? {
      CopyInBounds(s, got.value);
      if !s.done {
        CopyKeepsTrack(s.wb, s.stuffing, s.rb.Unread() + got.value);
      }
    }
  }

  ghost predicate Determined(p: Progress, line: Str, cur: State, env: Env) {
    |p.wb.written| <= p.wb.limit && Exec(p, T.Meaning(line), cur, env).defined
  }

  /** The command in `line` took the batch from `p` to this. */
  ghost predicate Ran(p: Progress, line: Str, cur: State, env: Env, core: Core, wb: Fifo, next: State) {
    |p.wb.written| <= p.wb.limit &&
    var q := Exec(p, T.Meaning(line), cur, env);
    q.core == core && q.wb == wb && q.local == next
  }

  /** What an octet fed in the middle of `line` does. */
  function AfterOctet(p: Progress, line: Str, c: byte, cur: State, env: Env): Progress
    requires |p.wb.written| <= p.wb.limit
  {
    if T.EndsLine(line, c) then Exec(p, T.Meaning(line[..|line| - 1]), cur, env) else p
  }

  /** `t` is the session `s` once the octets `taken` were read and fed. */
  ghost predicate ReadSoFar(s: Session, fd: Fd, taken: Str, t: Session, next: State, env: Env)
    requires s.current.Some? && |s.wb.written| <= s.wb.limit
  {
    var cut, p := T.CutLines(s.line + taken), S.Batch(s, taken, env);
    && t == (if cut.lines == [] then s else S.SetInterest(s, fd, Write)).(line := cut.rest, rb := t.rb, core := p.core, wb := p.wb)
    && next == p.local
  }

  /** There is an octet to read, the batch has come to `p`, and what the octet does is determined. */
  ghost predicate MayRead(s: Session, p: Progress, local: State, env: Env) {
    && s.current.Some? && |p.wb.written| <= p.wb.limit && s.rb.read < |s.rb.written|
    && p.core == s.core && p.wb == s.wb && p.local == local
    && AfterOctet(p, s.line, s.rb.Unread()[0], s.current.value, env).defined
  }

  /** What reading one octet makes of the session `s`, whose batch has come to `p`. */
  ghost predicate OctetRead(s: Session, fd: Fd, p: Progress, env: Env, t: Session, next: State)
  {
    s.current.Some? && |p.wb.written| <= p.wb.limit && s.rb.read < |s.rb.written| &&
    var c := s.rb.Unread()[0];
    var q, ends := AfterOctet(p, s.line, c, s.current.value, env), T.EndsLine(s.line, c);
    && t == (if ends then S.SetInterest(s, fd, Write) else s).(
               line := if ends then [] else s.line + [c], rb := s.rb.Take(1), core := q.core, wb := q.wb)
    && next == q.local
  }

  lemma OctetEnds(s: Session, fd: Fd, p: Progress, env: Env, t: Session, next: State)
    requires MayRead(s, p, p.local, env)
    requires var c := s.rb.Unread()[0];
      T.EndsLine(s.line, c) && Ran(p, s.line[..|s.line| - 1], s.current.value, env, t.core, t.wb, next)
    requires t == S.SetInterest(s, fd, Write).(line := [], rb := s.rb.Take(1), core := t.core, wb := t.wb)
    ensures OctetRead(s, fd, p, env, t, next)
  {
  }

  lemma OctetStays(s: Session, fd: Fd, p: Progress, env: Env, t: Session, next: State)
    requires MayRead(s, p, next, env)
    requires var c := s.rb.Unread()[0];
      !T.EndsLine(s.line, c) && t == s.(line := s.line + [c], rb := s.rb.Take(1))
    ensures OctetRead(s, fd, p, env, t, next)
  {
  }

  lemma NothingTaken(s: Session, fd: Fd, t: Session, env: Env)
    requires s.current.Some? && s.wb.Ok() && T.NoCrLf(s.line) && t == s.(rb := t.rb)
    ensures ReadSoFar(s, fd, [], t, s.current.value, env)
  {
    T.CutRest(s.line);
    assert s.line + [] == s.line;
  }

  /** The batch goes on with the octet. */
  lemma BatchOctet(s: Session, chunk: Str, i: nat, env: Env)
    requires s.current.Some? && s.wb.Ok() && i < |chunk|
    ensures var cut := T.CutLines(s.line + chunk[..i]);
      && T.CutLines(s.line + chunk[..i + 1]) == T.Extend(cut, chunk[i])
      && S.Batch(s, chunk[..i + 1], env) ==
         AfterOctet(S.Batch(s, chunk[..i], env), cut.rest, chunk[i], s.current.value, env)
  {
    hide T.CutLines;
    hide Exec;
    T.NextCut(s.line, chunk, i);
    var cut := T.CutLines(s.line + chunk[..i]);
    if T.EndsLine(cut.rest, chunk[i]) {
      var line := cut.rest[..|cut.rest| - 1];
      T.MeaningsAppend(cut.lines, line);
      var cmds := T.Meanings(cut.lines);
      assert (cmds + [T.Meaning(line)])[..|cmds|] == cmds;
    }
  }

  /** As long as the whole batch is determined, so is the next octet's effect. */
  lemma OneMore(s: Session, fd: Fd, chunk: Str, i: nat, t: Session, next: State, env: Env)
    requires s.current.Some? && s.wb.Ok() && i < |chunk| && ReadSoFar(s, fd, chunk[..i], t, next, env)
    ensures var p := S.Batch(s, chunk[..i], env);
      && t.current == s.current && p.core == t.core && p.wb == t.wb && p.local == next
      && S.Batch(s, chunk[..i + 1], env) == AfterOctet(p, t.line, chunk[i], s.current.value, env)
    ensures T.CutLines(s.line + chunk[..i + 1]) == T.Extend(T.CutLines(s.line + chunk[..i]), chunk[i])
    ensures S.Batch(s, chunk, env).defined ==> S.Batch(s, chunk[..i + 1], env).defined
  {
    hide S.Batch;
    hide AfterOctet;
    BatchOctet(s, chunk, i, env);
    PrefixDefined(s, chunk[..i + 1], chunk[i + 1..], env);
    assert chunk[..i + 1] + chunk[i + 1..] == chunk;
  }

  lemma OneMoreRead(s: Session, fd: Fd, chunk: Str, i: nat, t: Session, local: State, u: Session, next: State, env: Env)
    requires s.current.Some? && s.wb.Ok() && i < |chunk| && ReadSoFar(s, fd, chunk[..i], t, local, env)
    requires t.rb.read < |t.rb.written| && t.rb.Unread()[0] == chunk[i]
    requires OctetRead(t, fd, S.Batch(s, chunk[..i], env), env, u, next)
    ensures ReadSoFar(s, fd, chunk[..i + 1], u, next, env) && u.rb == t.rb.Take(1) && u.current == s.current
  {
    hide S.Batch;
    hide AfterOctet;
    hide T.CutLines;
    OneMore(s, fd, chunk, i, t, local, env);
  }

  lemma PrefixDefined(s: Session, a: Str, b: Str, env: Env)
    requires s.current.Some? && s.wb.Ok()
    ensures S.Batch(s, a + b, env).defined ==> S.Batch(s, a, env).defined
  {
    P.BatchContinues(s, a, b, env);
    P.EarlierFits(S.Batch(s, a, env), T.Meanings(T.CutLines(T.CutLines(s.line + a).rest + b).lines), s.current.value, env);
  }

  predicate Hits(k: nat, bytes: Str) {
    Terminator.Scan(k, bytes).Some?
  }

  /** The write buffer once `bytes` were read from a mail. */
  ghost function CopiedTo(wb: Fifo, k: nat, bytes: Str): Fifo
    requires |wb.written| <= wb.limit
  {
    var all := wb.Push(Copied(k, bytes));
    if Hits(k, bytes) then Rewrite(all) else all
  }

  ghost predicate CopiedSoFar(w: Fifo, k: nat, bytes: Str, wb: Fifo, stuffing: nat)
    requires |w.written| <= w.limit
  {
    !Hits(k, bytes) && wb == w.Push(bytes) && stuffing == Terminator.StateAfter(k, bytes)
  }

  lemma NothingCopied(wb: Fifo, k: nat, bytes: Str)
    requires |wb.written| <= wb.limit
    ensures CopiedSoFar(wb, k, bytes[..0], wb, k)
  {
    assert wb.written + [] == wb.written;
  }

  lemma AllCopied(w: Fifo, k: nat, bytes: Str, wb: Fifo, stuffing: nat)
    requires |w.written| <= w.limit && CopiedSoFar(w, k, bytes[..|bytes|], wb, stuffing)
    ensures !Hits(k, bytes) && Copied(k, bytes) == bytes && wb == w.Push(bytes)
    ensures stuffing == Terminator.StateAfter(k, bytes)
  {
    assert bytes[..|bytes|] == bytes;
  }

  lemma OneMoreCopied(w: Fifo, k: nat, bytes: Str, i: nat, wb: Fifo, stuffing: nat)
    requires |w.written| <= w.limit && i < |bytes| && CopiedSoFar(w, k, bytes[..i], wb, stuffing)
    ensures |wb.written| <= wb.limit
    ensures var c, next := bytes[i], wb.Push([bytes[i]]);
      if Terminator.Hit(stuffing, c) then Hits(k, bytes) && Copied(k, bytes) == bytes[..i + 1] && next == w.Push(bytes[..i + 1])
      else CopiedSoFar(w, k, bytes[..i + 1], next, Terminator.Next(stuffing, c))
  {
    assert bytes[..i + 1] == bytes[..i] + [bytes[i]];
    Terminator.ScanStep(k, bytes[..i], bytes[i]);
    PushTwice(w, bytes[..i], [bytes[i]]);
    if Terminator.Hit(stuffing, bytes[i]) {
      Terminator.ScanSplit(k, bytes[..i + 1], bytes[i + 1..]);
      assert bytes[..i + 1] + bytes[i + 1..] == bytes;
    }
  }

  lemma PushTerm(f: Fifo)
    requires |f.written| + 5 <= f.limit
    ensures f.Push([CR]).Push([LF]).Push([DOT]).Push([CR]).Push([LF]) == f.Fill(Terminator.TERM)
  {
    PushTwice(f, [CR], [LF]);
    PushTwice(f, [CR] + [LF], [DOT]);
    PushTwice(f, [CR] + [LF] + [DOT], [CR]);
    PushTwice(f, [CR] + [LF] + [DOT] + [CR], [LF]);
    assert [CR] + [LF] + [DOT] + [CR] + [LF] == Terminator.TERM && Terminator.TERM[..5] == Terminator.TERM;
  }

  /** Where the loading loop stops, it has the listing. */
  lemma AllVisible(prefix: Str, dir: seq<Entry>, d: nat, mails: seq<Mail>)
    requires d <= |dir| && mails == Visible(prefix, dir[..d]) && |mails| <= MAX_MAILS
    requires d == |dir| || |mails| == MAX_MAILS
    ensures mails == Listing(prefix, dir)
  {
    VisiblePrefix(prefix, dir, d);
    assert dir[..|dir|] == dir;
  }

  lemma NothingLoaded(prefix: Str, dir: seq<Entry>, dele: seq<bool>)
    ensures Visible(prefix, dir[..0]) == [] && Live(dele, 0) == 0 && Octets([], dele, 0) == 0
  {
  }

  lemma OctetsOfMore(mails: seq<Mail>, mail: Mail, dele: seq<bool>, n: nat)
    requires n == |mails| < |dele|
    ensures Live(dele, n + 1) == Live(dele, n) + if dele[n] then 0 else 1
    ensures Octets(mails + [mail], dele, n + 1) == Octets(mails, dele, n) + if dele[n] then 0 else mail.size
  {
    OctetsPrefix(mails, mail, dele, n);
  }

  lemma {:induction false} OctetsPrefix(mails: seq<Mail>, mail: Mail, dele: seq<bool>, n: nat)
    requires n <= |mails| && n <= |dele|
    ensures Octets(mails + [mail], dele, n) == Octets(mails, dele, n)
  {
    if n > 0 {
      OctetsPrefix(mails, mail, dele, n - 1);
    }
  }

  lemma SayMore(wb: Fifo, msgs: seq<Str>, msg: Str)
    requires |wb.written| <= wb.limit
    ensures SayAll(wb, msgs + [msg]) == Say(SayAll(wb, msgs), msg)
  {
    assert (msgs + [msg])[..|msgs|] == msgs;
  }

  lemma SayOne(wb: Fifo, msg: Str)
    requires |wb.written| <= wb.limit
    ensures SayAll(wb, [msg]) == Say(wb, msg)
  {
    SayMore(wb, [], msg);
    assert [] + [msg] == [msg];
  }

  lemma SayPair(wb: Fifo, a: Str, b: Str)
    requires |wb.written| <= wb.limit
    ensures SayAll(wb, [a, b]) == Say(Say(wb, a), b)
  {
    SayOne(wb, a);
    SayMore(wb, [a], b);
    assert [a] + [b] == [a, b];
  }

  lemma RowsMore(mails: seq<Mail>, dele: seq<bool>, i: nat)
    requires i < |mails| && i < |dele|
    ensures Rows(mails, dele, 0) == []
    ensures Rows(mails, dele, i + 1) == if dele[i] then Rows(mails, dele, i) else Rows(mails, dele, i) + [Row(i + 1, mails[i].size)]
  {
    assert Rows(mails, dele, i) + [] == Rows(mails, dele, i);
  }

  lemma RowSaid(rows: seq<Row>, row: Row, header: Str)
    ensures [header] + ListRows(rows + [row]) == [header] + ListRows(rows) + [ListRow(row)]
  {
  }
}
