/** RETR: the octets of a mail on their way from the file to the client. */
module Transfer {
  import opened Bytes
  import opened Buffers
  import opened Commands
  import opened Mailbox
  import opened Maildrop
  import opened Numbers
  import opened Session
  import opened SessionInvariant
  import L = Login
  import T = Tokenizer
  import Terminator

  predicate InTransfer(s: Session) {
    s.current == Some(ReadingMail) || s.current == Some(WritingMail)
  }

  /** The part of a chunk that a read copies. */
  function CopiedBy(s: Session, e: Event): Str
    requires s.rb.read <= |s.rb.written|
  {
    if e.Readable? && e.got.Some? then Copied(s.stuffing, s.rb.Unread() + e.got.value) else []
  }

  /** The end of the mail was just recognised: the automaton still waits for LF, though the terminator is complete. */
  predicate AfterEnd(s: Session) {
    s.done && s.stuffing == 4 && Terminator.EndsWith(s.wb.written, Terminator.TERM)
  }

  /** Behind the end of the mail: the write buffer ends as the automaton has it, or with the terminator. */
  predicate Tracks(s: Session) {
    s.done ==> s.wb.read < |s.wb.written| && (AfterEnd(s) || HoldsPartialTerm(s.wb, s.stuffing))
  }

  /** The chunk read next begins with LF and comes right behind the end: it counts as an end once more. */
  predicate EndsAgain(s: Session, bytes: Str) {
    AfterEnd(s) && bytes != [] && bytes[0] == LF
  }

  lemma {:induction false} OneOctet(k: nat, c: byte)
    ensures Terminator.Scan(k, [c]) == if Terminator.Hit(k, c) then Some(1) else None
    ensures Terminator.StateAfter(k, [c]) == Terminator.Next(k, c)
  {
    assert [c][..0] == [];
    assert Terminator.StateAfter(k, []) == k && Terminator.Scan(k, []) == None;
  }

  /** Right behind the end, any octet but LF takes the automaton to its start state, from where it keeps track again. */
  lemma CopyAfterEnd(wb: Fifo, bytes: Str)
    requires wb.Ok() && wb.limit >= MIN_BUFFER && bytes != [] && bytes[0] != LF
    requires |Copied(4, bytes)| <= wb.Room()
    ensures var next := wb.Push(Copied(4, bytes));
      && Copied(4, bytes) != [] && Copied(4, bytes) <= bytes
      && match Terminator.Scan(4, bytes)
         case None => HoldsPartialTerm(next, Terminator.StateAfter(4, bytes))
         case Some(_) => |next.written| >= 5 && Rewrite(next) == next
  {
    hide Terminator.Scan;
    hide Terminator.StateAfter;
    hide Copied;
    hide HoldsPartialTerm;
    hide Rewrite;
    var c, rest := bytes[0], bytes[1..];
    ShiftedScan(c, rest);
    assert bytes == [c] + rest;
    if rest == [] {
      assert bytes == [c];
      OneAfterEnd(wb, c);
    } else {
      CopiedStarts(0, rest);
      assert [c] + Copied(0, rest) <= [c] + rest;
      RestAfterEnd(wb, c, rest);
    }
  }

  lemma CopiedStarts(k: nat, bytes: Str)
    ensures Copied(k, bytes) <= bytes
  {
  }

  lemma ShiftedScan(c: byte, rest: Str)
    requires c != LF
    ensures Terminator.StateAfter(4, [c] + rest) == Terminator.StateAfter(0, rest)
    ensures Terminator.Scan(4, [c] + rest) ==
            match Terminator.Scan(0, rest) case None => None case Some(n) => Some(n + 1)
    ensures Copied(4, [c] + rest) == [c] + Copied(0, rest)
  {
    OneOctet(4, c);
    Terminator.ScanSplit(4, [c], rest);
    Terminator.StateSplit(4, [c], rest);
    hide Terminator.Scan;
    hide Terminator.StateAfter;
  }

  lemma OneAfterEnd(wb: Fifo, c: byte)
    requires wb.Ok() && c != LF && wb.Room() >= 1
    ensures Terminator.Scan(4, [c]).None? && Copied(4, [c]) == [c]
    ensures HoldsPartialTerm(wb.Push([c]), Terminator.StateAfter(4, [c]))
  {
    OneOctet(4, c);
    assert Terminator.TERM[..0] == [];
  }

  lemma RestAfterEnd(wb: Fifo, c: byte, rest: Str)
    requires wb.Ok() && wb.limit >= MIN_BUFFER && rest != [] && 1 + |Copied(0, rest)| <= wb.Room()
    ensures var next := wb.Push([c] + Copied(0, rest));
      match Terminator.Scan(0, rest)
      case None => HoldsPartialTerm(next, Terminator.StateAfter(0, rest))
      case Some(_) => |next.written| >= 5 && Rewrite(next) == next
  {
    assert Terminator.TERM[..0] == [];
    assert [c][..1] == [c];
    CopyKeepsTrack(wb.Fill([c]), 0, rest);
    PushTwice(wb, [c], Copied(0, rest));
  }

  /** LF right behind the end: one octet is copied, and the five that are deleted are not the terminator. */
  lemma EndAgain(wb: Fifo, bytes: Str)
    requires wb.Ok() && wb.read < |wb.written| && Terminator.EndsWith(wb.written, Terminator.TERM)
    requires bytes != [] && bytes[0] == LF
    ensures Terminator.Scan(4, bytes) == Some(1) && Copied(4, bytes) == [LF]
    ensures Rewrite(wb.Push([LF])).Ok() && Rewrite(wb.Push([LF])).Unread() != wb.Unread() + [LF]
  {
    assert bytes == [LF] + bytes[1..];
    OneOctet(4, LF);
    Terminator.ScanSplit(4, [LF], bytes[1..]);
    RewriteDiffers(wb);
  }

  lemma RewriteDiffers(wb: Fifo)
    requires wb.Ok() && wb.read < |wb.written| && Terminator.EndsWith(wb.written, Terminator.TERM)
    ensures Rewrite(wb.Push([LF])).Ok() && Rewrite(wb.Push([LF])).Unread() != wb.Unread() + [LF]
  {
    var n := |wb.written|;
    var next := wb.Push([LF]);
    if wb.Room() > 0 {
      assert next.written == wb.written + [LF];
      var r := Rewrite(next);
      assert wb.written[n - 1] == Terminator.TERM[4] && r.written[n - 1] == Terminator.TERM[3];
      var k := n - 1 - wb.read;
      assert r.Unread()[k] == CR && (wb.Unread() + [LF])[k] == LF;
    }
  }

  /** Exactly when reading a chunk conserves octets, deletion and rewriting at a terminator included: when what is copied
      fits the room of the write buffer, and the chunk does not begin with LF right behind the end of the mail. */
  lemma ReadConservesExactly(s: Session, fd: Fd, got: Str)
    requires Inv(s) && InTransfer(s) && Tracks(s) && 0 < |got| <= s.rb.Room()
    ensures var (t, next) := FileRead(s, fd, Some(got));
      var bytes := s.rb.Unread() + got;
      var copied := Copied(s.stuffing, bytes);
      && t.wb.read <= |t.wb.written| && copied <= bytes && t.rb.Ok() && t.rb.Unread() == bytes[|copied|..]
      && (t.wb.Unread() == s.wb.Unread() + copied <==> |copied| <= s.wb.Room() && !EndsAgain(s, bytes))
      && (|copied| <= s.wb.Room() && !EndsAgain(s, bytes) ==> Tracks(t))
      && (t.done <==> s.done || Terminator.Scan(s.stuffing, bytes).Some?)
      && (!t.done ==> copied == bytes && bytes == got)
  {
    var bytes := s.rb.Unread() + got;
    var copied := Copied(s.stuffing, bytes);
    CopyInBounds(s, got);
    ReadKeepsRest(s, got, copied);
    if AfterEnd(s) {
      EndPushed(s.wb, bytes);
    } else {
      ChunkPushed(s.wb, s.stuffing, bytes);
    }
    hide Rewrite;
    hide BoxOk;
    hide Copied;
    hide Terminator.Scan;
    hide Terminator.StateAfter;
  }

  /** What a read leaves in the write buffer. */
  function PushedBy(wb: Fifo, k: nat, bytes: Str): Fifo
    requires |wb.written| <= wb.limit
  {
    var next := wb.Push(Copied(k, bytes));
    if Terminator.Scan(k, bytes).Some? then Rewrite(next) else next
  }

  lemma ChunkPushed(wb: Fifo, k: nat, bytes: Str)
    requires wb.Ok() && wb.limit >= MIN_BUFFER && HoldsPartialTerm(wb, k) && bytes != []
    ensures var u, copied := PushedBy(wb, k, bytes), Copied(k, bytes);
      && copied != [] && copied <= bytes && u.Ok()
      && (u.Unread() == wb.Unread() + copied <==> |copied| <= wb.Room())
      && (|copied| <= wb.Room() ==>
            wb.read < |u.written| &&
            if Terminator.Scan(k, bytes).Some? then Terminator.EndsWith(u.written, Terminator.TERM)
            else HoldsPartialTerm(u, Terminator.StateAfter(k, bytes)))
  {
    CopyKeepsTrack(wb, k, bytes);
    PushedUnread(wb, Copied(k, bytes));
    hide Terminator.Scan;
    hide Terminator.StateAfter;
    hide Copied;
  }

  lemma EndPushed(wb: Fifo, bytes: Str)
    requires wb.Ok() && wb.limit >= MIN_BUFFER && Terminator.EndsWith(wb.written, Terminator.TERM) && bytes != []
    requires wb.read < |wb.written|
    ensures var u, copied := PushedBy(wb, 4, bytes), Copied(4, bytes);
      && copied != [] && copied <= bytes && u.Ok()
      && (u.Unread() == wb.Unread() + copied <==> |copied| <= wb.Room() && bytes[0] != LF)
      && (|copied| <= wb.Room() && bytes[0] != LF ==>
            wb.read < |u.written| &&
            if Terminator.Scan(4, bytes).Some? then Terminator.EndsWith(u.written, Terminator.TERM)
            else HoldsPartialTerm(u, Terminator.StateAfter(4, bytes)))
  {
    PushedUnread(wb, Copied(4, bytes));
    if bytes[0] == LF {
      EndAgain(wb, bytes);
    } else if |Copied(4, bytes)| <= wb.Room() {
      CopyAfterEnd(wb, bytes);
    }
    hide Terminator.Scan;
    hide Terminator.StateAfter;
    hide HoldsPartialTerm;
  }

  /** Recognising the end leaves the automaton waiting for LF, so that the chunk read next can damage the terminator. */
  lemma EndIsAfterEnd(s: Session, fd: Fd, got: Str)
    requires Inv(s) && InTransfer(s) && !s.done && 0 < |got| <= s.rb.Room() && |Copied(s.stuffing, got)| <= s.wb.Room()
    ensures var (t, next) := FileRead(s, fd, Some(got));
      && (t.done <==> AfterEnd(t))
      && (t.done ==> forall more: Str | more != [] && t.rb.Unread() == [] :: EndsAgain(t, t.rb.Unread() + more) <==> more[0] == LF)
  {
    assert s.rb.Unread() + got == got;
    CopyInBounds(s, got);
    ChunkPushed(s.wb, s.stuffing, got);
    ReadKeepsRest(s, got, Copied(s.stuffing, got));
    hide Rewrite;
    hide BoxOk;
    hide Copied;
    hide Terminator.Scan;
    hide Terminator.StateAfter;
    hide HoldsPartialTerm;
  }

  lemma ReadKeepsRest(s: Session, got: Str, copied: Str)
    requires s.rb.Ok() && |got| <= s.rb.Room() && copied <= s.rb.Unread() + got
    ensures var rb := s.rb.Fill(got).Take(|copied|);
      rb.Ok() && rb.Unread() == (s.rb.Unread() + got)[|copied|..]
  {
    assert s.rb.Fill(got).Unread() == s.rb.Unread() + got;
  }

  lemma PushedUnread(wb: Fifo, bs: Str)
    requires wb.Ok()
    ensures |bs| <= wb.Room() ==> wb.Push(bs).Unread() == wb.Unread() + bs
    ensures |bs| > wb.Room() ==> |wb.Push(bs).Unread()| < |wb.Unread() + bs|
  {
    if |bs| <= wb.Room() {
      assert bs[..|bs|] == bs;
      FillTwice(wb, bs, []);
    }
  }

  /** Sending conserves octets, except at the end of the mail: there what was not sent is thrown away. */
  lemma WriteConservesExactly(s: Session, fd: Fd, sent: Option<nat>, reset: bool)
    requires Inv(s) && InTransfer(s) && (sent.Some? ==> sent.value <= |s.wb.Unread()|)
    ensures var (t, next) := MailWrite(s, fd, sent, reset);
      var gone := if sent.Some? then s.wb.Unread()[..sent.value] else [];
      && t.wb.Ok() && t.rb.Ok()
      && (!s.done ==> gone + t.wb.Unread() == s.wb.Unread() && t.rb == s.rb)
      && (s.done ==> next.Transaction? && t.wb.Unread() == [] && (gone == s.wb.Unread() <==> |gone| == |s.wb.Unread()|))
  {
    if sent.Some? {
      var u := s.wb.Unread();
      assert u[..sent.value] + u[sent.value..] == u;
      assert s.wb.Take(sent.value).Unread() == u[sent.value..];
    } else {
      assert [] + s.wb.Unread() == s.wb.Unread();
    }
  }

  // ---------------------------------------------------------------------------------------------
  // Whole transfers.

  /** How many octets of the file the first `n` events read. */
  function Pos(events: seq<Event>, n: nat): nat
    requires n <= |events|
  {
    if n == 0 then 0
    else Pos(events, n - 1) + if events[n - 1].Readable? && events[n - 1].got.Some? then |events[n - 1].got.value| else 0
  }

  /** Event `i`, if it reads, reads the next octets of the file. */
  predicate ReadsOn(events: seq<Event>, file: Str, i: nat)
    requires i < |events|
  {
    events[i].Readable? && events[i].got.Some? ==>
      Pos(events, i + 1) <= |file| && events[i].got.value == file[Pos(events, i)..Pos(events, i + 1)]
  }

  /** The transfer of `file` through the first `n` events: chunks are what the file has next, and what is copied of them fits
      the write buffer. */
  ghost predicate Transferring(states: seq<Session>, events: seq<Event>, file: Str, n: nat)
    requires |states| == |events| + 1 && n <= |events|
  {
    forall i: nat | i < n :: TransferAt(states, events, file, i)
  }

  ghost predicate TransferAt(states: seq<Session>, events: seq<Event>, file: Str, i: nat)
    requires |states| == |events| + 1 && i < |events|
  {
    var s, e := states[i], events[i];
    && InTransfer(s) && ReadsOn(events, file, i)
    && (e.Readable? && e.got.Some? ==> s.wb.Ok() && s.rb.Ok() && |CopiedBy(s, e)| <= s.wb.Room())
  }

  /** No chunk that begins with LF is read right behind the end of the mail, before the send that follows it. */
  ghost predicate EndsOnce(states: seq<Session>, events: seq<Event>, n: nat)
    requires |states| == |events| + 1 && n <= |events|
  {
    forall i: nat | i < n :: EndsOnceAt(states, events, i)
  }

  predicate EndsOnceAt(states: seq<Session>, events: seq<Event>, i: nat)
    requires |states| == |events| + 1 && i < |events|
  {
    var s, e := states[i], events[i];
    e.Readable? && e.got.Some? && s.rb.read <= |s.rb.written| ==> !EndsAgain(s, s.rb.Unread() + e.got.value)
  }

  /** Where the copying has come to: everything read, less what lies unread behind a terminator. */
  ghost function CopiedUpTo(states: seq<Session>, events: seq<Event>, n: nat): int
    requires |states| == |events| + 1 && n <= |events|
  {
    Pos(events, n) - |states[n].rb.written| + states[n].rb.read
  }

  /** What was read of the file and not copied is its part from `k` to `pos`. */
  ghost predicate InFile(s: Session, file: Str, k: nat, pos: nat) {
    s.rb.Ok() && Tracks(s) && k <= pos <= |file| && s.rb.Unread() == file[k..pos]
  }

  /** `sent` and what is pending are `base` and the first `k` octets of the file. */
  ghost predicate Accounts(wb: Fifo, sent: Str, base: Str, file: Str, k: nat) {
    wb.Ok() && k <= |file| && sent + wb.Unread() == base + file[..k]
  }

  /** Octets sent and octets pending are the output queued before and the file copied so far. */
  ghost predicate Conserved(states: seq<Session>, events: seq<Event>, file: Str, n: nat)
    requires IsRun(states, events) && n <= |events|
  {
    var k := CopiedUpTo(states, events, n);
    && states[0].wb.Ok() && 0 <= k && InFile(states[n], file, k, Pos(events, n))
    && Accounts(states[n].wb, SentIn(states, events, n), states[0].wb.Unread(), file, k)
  }

  /** A transfer begins: RETR was accepted, nothing of the file was read. */
  ghost predicate Begun(s: Session) {
    Inv(s) && s.current == Some(ReadingMail) && s.mailFd == Some(Read)
  }

  /** Moving within a transfer, or into ERROR, leaves the buffers alone. */
  lemma MoveKeepsBuffers(t: Session, next: State)
    requires t.current.Some? && !next.Auth?
    ensures var u := Finish(Jump(t, next), next);
      && u.wb == t.wb && u.rb == t.rb && u.current == Some(next)
      && (next.WritingMail? ==> u.done == t.done && u.mailFd == t.mailFd && u.stuffing == t.stuffing)
  {
  }

  /** The octets left over and those just read are a part of the file, and so are those copied of them. */
  lemma FilePart(file: Str, k: nat, pos: nat, left: Str, chunk: Str, copied: Str)
    requires k <= pos <= pos + |chunk| <= |file| && left == file[k..pos] && chunk == file[pos..pos + |chunk|]
    requires copied <= left + chunk
    ensures file[..k] + copied == file[..k + |copied|]
    ensures (left + chunk)[|copied|..] == file[k + |copied|..pos + |chunk|]
  {
    assert left + chunk == file[k..pos + |chunk|];
  }

  lemma ReadAccounts(s: Session, e: Event, file: Str, k: nat, pos: nat, base: Str, sent: Str)
    requires Inv(s) && InTransfer(s) && Tracks(s) && Enabled(s, e) && e.Readable? && e.got.Some?
    requires k <= pos && pos + |e.got.value| <= |file| && e.got.value == file[pos..pos + |e.got.value|]
    requires s.rb.Unread() == file[k..pos] && !EndsAgain(s, s.rb.Unread() + e.got.value)
    requires |CopiedBy(s, e)| <= s.wb.Room() && Accounts(s.wb, sent, base, file, k)
    ensures var u, k' := Step(s, e), k + |CopiedBy(s, e)|;
      && k' <= pos + |e.got.value| && Accounts(u.wb, sent, base, file, k') && Tracks(u)
      && u.rb.Ok() && u.rb.Unread() == file[k'..pos + |e.got.value|]
  {
    hide Step;
    hide Enabled;
    hide InTransfer;
    hide Tracks;
    hide EndsAgain;
    hide BoxOk;
    hide Copied;
    hide HoldsPartialTerm;
    var left, copied, u := s.rb.Unread(), CopiedBy(s, e), Step(s, e);
    ReadMoves(s, e);
    hide *;
    CopyAccounts(s.wb, u.wb, left, e.got.value, copied, sent, base, file, k, pos);
  }

  lemma CopyAccounts(wb: Fifo, wb': Fifo, left: Str, chunk: Str, copied: Str, sent: Str, base: Str, file: Str, k: nat, pos: nat)
    requires Accounts(wb, sent, base, file, k) && wb'.Ok() && wb'.Unread() == wb.Unread() + copied
    requires k <= pos <= pos + |chunk| <= |file| && left == file[k..pos] && chunk == file[pos..pos + |chunk|]
    requires copied <= left + chunk
    ensures k + |copied| <= pos + |chunk| && Accounts(wb', sent, base, file, k + |copied|)
    ensures (left + chunk)[|copied|..] == file[k + |copied|..pos + |chunk|]
  {
    FilePart(file, k, pos, left, chunk, copied);
    AppendBoth(wb, wb', copied, sent, base, file, k);
  }

  /** A read in the transfer, all the way through the machine. */
  lemma ReadMoves(s: Session, e: Event)
    requires Inv(s) && InTransfer(s) && Tracks(s) && Enabled(s, e) && e.Readable? && e.got.Some?
    requires |CopiedBy(s, e)| <= s.wb.Room() && !EndsAgain(s, s.rb.Unread() + e.got.value)
    ensures var u, bytes, copied := Step(s, e), s.rb.Unread() + e.got.value, CopiedBy(s, e);
      && copied <= bytes && u.wb.Ok() && u.wb.Unread() == s.wb.Unread() + copied && Tracks(u)
      && u.rb.Ok() && u.rb.Unread() == bytes[|copied|..]
  {
    var (t, next) := FileRead(s, e.fd, e.got);
    assert React(s, e) == (t, next);
    MoveKeepsBuffers(t, next);
    CopyInBounds(s, e.got.value);
    ReadConservesExactly(s, e.fd, e.got.value);
    hide Copied;
    hide Rewrite;
    hide Terminator.Scan;
    hide Terminator.StateAfter;
    hide BoxOk;
  }

  lemma AppendBoth(wb: Fifo, wb': Fifo, copied: Str, sent: Str, base: Str, file: Str, pos: nat)
    requires Accounts(wb, sent, base, file, pos) && wb'.Ok() && wb'.Unread() == wb.Unread() + copied
    requires pos + |copied| <= |file| && file[..pos] + copied == file[..pos + |copied|]
    ensures Accounts(wb', sent, base, file, pos + |copied|)
  {
    assert sent + (wb.Unread() + copied) == (sent + wb.Unread()) + copied;
    assert base + file[..pos] + copied == base + (file[..pos] + copied);
  }

  lemma SendAccounts(wb: Fifo, wb': Fifo, gone: Str, file: Str, k: nat, base: Str, sent: Str)
    requires Accounts(wb, sent, base, file, k) && wb'.Ok() && gone + wb'.Unread() == wb.Unread()
    ensures Accounts(wb', sent + gone, base, file, k)
  {
    assert sent + gone + wb'.Unread() == sent + (gone + wb'.Unread());
  }

  lemma WriteAccounts(s: Session, e: Event, file: Str, k: nat, base: Str, sent: Str)
    requires Inv(s) && InTransfer(s) && !s.done && Enabled(s, e) && e.Writable?
    requires Accounts(s.wb, sent, base, file, k)
    ensures var u := Step(s, e);
      Accounts(u.wb, sent + SentBy(s, e), base, file, k) && u.rb == s.rb && !u.done
  {
    var (t, next) := MailWrite(s, e.fd, e.sent, e.reset);
    assert React(s, e) == (t, next);
    MoveKeepsBuffers(t, next);
    WriteConservesExactly(s, e.fd, e.sent, e.reset);
    SendAccounts(s.wb, t.wb, SentBy(s, e), file, k, base, sent);
  }

  lemma FailedReadAccounts(s: Session, e: Event, file: Str, k: nat, base: Str, sent: Str)
    requires Inv(s) && InTransfer(s) && Enabled(s, e) && e.Readable? && e.got.None?
    requires Accounts(s.wb, sent, base, file, k)
    ensures var u := Step(s, e);
      Accounts(u.wb, sent, base, file, k) && u.rb == s.rb && (Tracks(s) ==> Tracks(u))
  {
    MoveKeepsBuffers(s, Error);
  }

  /** How many octets of the file an event reads. */
  function Reads(e: Event): nat {
    if e.Readable? && e.got.Some? then |e.got.value| else 0
  }

  /** One event of the transfer other than the write that ends it. */
  lemma EventAccounts(s: Session, e: Event, file: Str, k: nat, pos: nat, base: Str, sent: Str)
    requires Inv(s) && InTransfer(s) && Enabled(s, e) && !(s.done && e.Writable?)
    requires InFile(s, file, k, pos) && Accounts(s.wb, sent, base, file, k)
    requires e.Readable? && e.got.Some? ==>
               && pos + |e.got.value| <= |file| && e.got.value == file[pos..pos + |e.got.value|]
               && |CopiedBy(s, e)| <= s.wb.Room() && !EndsAgain(s, s.rb.Unread() + e.got.value)
    ensures var u, k' := Step(s, e), k + |CopiedBy(s, e)|;
      InFile(u, file, k', pos + Reads(e)) && Accounts(u.wb, sent + SentBy(s, e), base, file, k')
  {
    if e.Writable? {
      WriteAccounts(s, e, file, k, base, sent);
    } else {
      assert sent + [] == sent;
      if e.got.Some? {
        ReadAccounts(s, e, file, k, pos, base, sent);
      } else {
        FailedReadAccounts(s, e, file, k, base, sent);
      }
    }
    hide Step;
    hide Inv;
    hide Enabled;
  }

  lemma ConserveStep(states: seq<Session>, events: seq<Event>, file: Str, i: nat)
    requires IsRun(states, events) && i < |events| && Inv(states[i])
    requires TransferAt(states, events, file, i) && EndsOnceAt(states, events, i) && Conserved(states, events, file, i)
    requires !(states[i].done && events[i].Writable?)
    ensures Conserved(states, events, file, i + 1)
  {
    hide Inv;
    hide Enabled;
    hide Step;
    hide EndsAgain;
    hide Tracks;
    hide InTransfer;
    assert StepAt(states, events, i);
    var s, e := states[i], events[i];
    EventAccounts(s, e, file, CopiedUpTo(states, events, i), Pos(events, i), states[0].wb.Unread(), SentIn(states, events, i));
    assert SentIn(states, events, i + 1) == SentIn(states, events, i) + SentBy(s, e);
  }

  /** RETR conserves octets: in every interleaving of file reads and partial sends, up to the end of the transfer, what
      was sent and what is pending are the output queued before (the response to RETR included) and the file copied so
      far. Deleting and rewriting the terminator changes nothing. */
  lemma {:induction false} RetrConservesOctets(states: seq<Session>, events: seq<Event>, file: Str, n: nat)
    requires IsRun(states, events) && Begun(states[0]) && n <= |events| && Transferring(states, events, file, n)
    requires EndsOnce(states, events, n)
    requires states[n].current != Some(Transaction)
    ensures Inv(states[n]) && Conserved(states, events, file, n)
  {
    if n == 0 {
      ConserveStart(states, events, file);
    } else {
      assert TransferAt(states, events, file, n - 1) && EndsOnceAt(states, events, n - 1);
      RetrConservesOctets(states, events, file, n - 1);
      assert StepAt(states, events, n - 1);
      StepInv(states[n - 1], events[n - 1]);
      DoneWriteEnds(states[n - 1], events[n - 1]);
      hide Inv;
      hide Enabled;
      hide Step;
      hide Conserved;
      hide EndsOnceAt;
      ConserveStep(states, events, file, n - 1);
    }
  }

  lemma ConserveStart(states: seq<Session>, events: seq<Event>, file: Str)
    requires IsRun(states, events) && Begun(states[0])
    ensures Conserved(states, events, file, 0)
  {
    assert file[..0] == [] && states[0].wb.Unread() + [] == states[0].wb.Unread();
    assert [] + states[0].wb.Unread() == states[0].wb.Unread();
  }

  /** The write after the end was recognised ends the transfer, and only that does. */
  lemma DoneWriteEnds(s: Session, e: Event)
    requires Inv(s) && InTransfer(s) && Enabled(s, e)
    ensures Step(s, e).current == Some(Transaction) <==> s.done && e.Writable?
  {
  }

  /** The end of the transfer: everything copied was sent exactly when that last send took all that was pending; what it
      left is lost. */
  lemma EndConservesExactly(states: seq<Session>, events: seq<Event>, file: Str, n: nat)
    requires IsRun(states, events) && Begun(states[0]) && n < |events| && Transferring(states, events, file, n + 1)
    requires EndsOnce(states, events, n) && states[n + 1].current == Some(Transaction)
    ensures StepAt(states, events, n) && Conserved(states, events, file, n) && events[n].Writable? && states[n].done
    ensures SentIn(states, events, n + 1) == states[0].wb.Unread() + file[..CopiedUpTo(states, events, n)] <==>
            SentBy(states[n], events[n]) == states[n].wb.Unread()
    ensures states[n + 1].wb.Unread() == [] && states[n + 1].mailFd.None?
  {
    assert TransferAt(states, events, file, n) && StepAt(states, events, n);
    RetrConservesOctets(states, events, file, n);
    var s, e := states[n], events[n];
    DoneWriteEnds(s, e);
    WriteConservesExactly(s, e.fd, e.sent, e.reset);
    var (t, next) := React(s, e);
    MoveKeepsBuffers(t, next);
    var sent, gone := SentIn(states, events, n), SentBy(s, e);
    if sent + gone == sent + s.wb.Unread() {
      assert (sent + gone)[|sent|..] == gone && (sent + s.wb.Unread())[|sent|..] == s.wb.Unread();
    }
  }

  // ---------------------------------------------------------------------------------------------
  // A client that waits for its mail.

  /** The client sends nothing: its descriptor is only ever written to. */
  predicate SilentAt(events: seq<Event>, i: nat)
    requires i < |events|
  {
    !(events[i].Readable? && events[i].fd.Client?)
  }

  /** The end of the mail as the code sees it in the first `n` events: behind the first terminator it recognises within
      one chunk. Every chunk is looked at from the start: a terminator cut by a chunk boundary is not seen. */
  function EndSeen(events: seq<Event>, n: nat): Option<nat>
    requires n <= |events|
  {
    if n == 0 then None
    else if EndSeen(events, n - 1).Some? then EndSeen(events, n - 1)
    else if events[n - 1].Readable? && events[n - 1].got.Some? then
      match Terminator.Scan(Terminator.START, events[n - 1].got.value)
      case None => None
      case Some(m) => Some(Pos(events, n - 1) + m)
    else None
  }

  /** With a silent client: the file is read only from READING_MAIL, and the end is recognised exactly when a chunk holds
      a terminator. */
  ghost predicate Waiting(states: seq<Session>, events: seq<Event>, i: nat)
    requires |states| == |events| + 1 && i <= |events|
  {
    var s := states[i];
    && InTransfer(s) && s.rb.Ok()
    && (s.mailFd == Some(Read) ==> s.current == Some(ReadingMail))
    && (s.done <==> EndSeen(events, i).Some?)
    && CopiedUpTo(states, events, i) == if s.done then EndSeen(events, i).value else Pos(events, i)
  }

  lemma WaitingRead(s: Session, e: Event)
    requires Inv(s) && InTransfer(s) && Enabled(s, e) && e.Readable? && e.fd.MailFile?
    requires s.mailFd == Some(Read) ==> s.current == Some(ReadingMail)
    ensures s.current == Some(ReadingMail) && !s.done && s.stuffing == Terminator.START && s.rb == s.rb.Reset()
    ensures InTransfer(Step(s, e)) ==>
              var u := Step(s, e);
              && e.got.Some? && u.mailFd == Some(Write) && u.rb.Ok()
              && (u.done <==> Terminator.Scan(Terminator.START, e.got.value).Some?)
              && |u.rb.written| - u.rb.read == |e.got.value| - |Copied(Terminator.START, e.got.value)|
  {
    hide BoxOk;
    hide Terminator.Scan;
    hide Terminator.StateAfter;
    hide Rewrite;
    if e.got.Some? {
      ReadConservesExactly(s, e.fd, e.got.value);
      assert s.rb.Unread() + e.got.value == e.got.value;
      var (t, next) := React(s, e);
      MoveKeepsBuffers(t, next);
      CopyInBounds(s, e.got.value);
    }
  }

  lemma WaitingWrite(s: Session, e: Event)
    requires Inv(s) && InTransfer(s) && Enabled(s, e) && e.Writable?
    requires s.mailFd == Some(Read) ==> s.current == Some(ReadingMail)
    ensures InTransfer(Step(s, e)) ==>
              var u := Step(s, e);
              && !s.done && !u.done && u.rb == s.rb
              && (u.mailFd == Some(Read) ==> u.current == Some(ReadingMail))
  {
    var (t, next) := React(s, e);
    MoveKeepsBuffers(t, next);
  }

  lemma WaitingStep(states: seq<Session>, events: seq<Event>, i: nat)
    requires IsRun(states, events) && i < |events| && Inv(states[i]) && Waiting(states, events, i)
    requires SilentAt(events, i) && InTransfer(states[i + 1])
    ensures Waiting(states, events, i + 1)
    ensures EndsOnceAt(states, events, i)
  {
    assert StepAt(states, events, i);
    var s, e := states[i], events[i];
    if e.Readable? {
      WaitingRead(s, e);
    } else {
      WaitingWrite(s, e);
    }
  }

  lemma WaitingNext(states: seq<Session>, events: seq<Event>, i: nat)
    requires IsRun(states, events) && i < |events| && Inv(states[i]) && Waiting(states, events, i)
    requires SilentAt(events, i) && InTransfer(states[i + 1])
    ensures Inv(states[i + 1]) && Waiting(states, events, i + 1) && EndsOnceAt(states, events, i)
  {
    hide Inv;
    hide Enabled;
    hide Step;
    hide InTransfer;
    hide Waiting;
    hide SilentAt;
    hide EndsOnceAt;
    assert StepAt(states, events, i);
    StepInv(states[i], events[i]);
    WaitingStep(states, events, i);
  }

  lemma WaitingStart(states: seq<Session>, events: seq<Event>)
    requires IsRun(states, events) && Begun(states[0])
    ensures Inv(states[0]) && Waiting(states, events, 0)
  {
  }

  lemma {:induction false} WaitingRun(states: seq<Session>, events: seq<Event>, n: nat)
    requires IsRun(states, events) && Begun(states[0]) && n <= |events|
    requires forall i | 0 <= i <= n :: InTransfer(states[i])
    requires forall i: nat | i < n :: SilentAt(events, i)
    ensures Inv(states[n]) && Waiting(states, events, n) && EndsOnce(states, events, n)
  {
    hide IsRun;
    hide Begun;
    hide Inv;
    hide InTransfer;
    hide Waiting;
    hide SilentAt;
    hide EndsOnceAt;
    if n == 0 {
      WaitingStart(states, events);
    } else {
      WaitingRun(states, events, n - 1);
      WaitingNext(states, events, n - 1);
    }
  }

  /** A whole RETR with a silent client. When the session is back in TRANSACTION a terminator was recognised, and what
      was sent is the output queued before and the file exactly through the first recognised terminator if and only if the
      last send took all that was pending. */
  lemma RetrSendsThroughTerminator(states: seq<Session>, events: seq<Event>, file: Str, n: nat)
    requires IsRun(states, events) && Begun(states[0]) && n < |events|
    requires Transferring(states, events, file, n + 1) && forall i: nat | i <= n :: SilentAt(events, i)
    requires states[n + 1].current == Some(Transaction)
    ensures StepAt(states, events, n) && EndSeen(events, n).Some? && EndSeen(events, n).value <= |file|
    ensures SentIn(states, events, n + 1) == states[0].wb.Unread() + file[..EndSeen(events, n).value] <==>
            SentBy(states[n], events[n]) == states[n].wb.Unread()
  {
    forall i | 0 <= i <= n
      ensures InTransfer(states[i])
    {
      assert TransferAt(states, events, file, i);
    }
    WaitingRun(states, events, n);
    EndConservesExactly(states, events, file, n);
  }

  // ---------------------------------------------------------------------------------------------
  // From the command to the last octet.

  /** The event brings, as its last command, RETR with the number of message `i`, which is there, unmarked and opens, and its
      response has room; `q` is where the commands before it have led. */
  ghost predicate Retrieves(s: Session, e: Event, init: seq<T.Command>, i: nat, q: Progress) {
    && s.current == Some(Transaction) && e.fd.Client? && IsBatch(s, e) && s.wb.Ok()
    && (exists rest :: T.Meanings(T.CutLines(s.line + e.got.value).lines) == init + [RetrCommand(i, rest)])
    && q == ExecAll(Progress(s.core, s.wb, Transaction, true, true), init, Transaction, e.env)
    && i < |e.env.Mails(q.core.user)| && i !in Marks(q.core.log)
    && e.env.Mails(q.core.user)[i].path in e.env.files && |POSITIVE_MSG| <= q.wb.Room()
  }

  function RetrCommand(i: nat, rest: Option<Str>): T.Command {
    T.Command(Text("RETR"), Some(Decimal(i + 1)), rest)
  }

  lemma RetrRuns(q: Progress, i: nat, rest: Option<Str>, env: Env)
    requires q.wb.Ok() && q.local.Transaction? && BoxIs(q.core) && Exec(q, RetrCommand(i, rest), Transaction, env).defined
    requires i < |env.Mails(q.core.user)| && i !in Marks(q.core.log)
    requires env.Mails(q.core.user)[i].path in env.files && |POSITIVE_MSG| <= q.wb.Room()
    ensures var r := Exec(q, RetrCommand(i, rest), Transaction, env);
      && r.local.ReadingMail? && r.core.selected == i && r.core.box.mails == env.Mails(q.core.user)
      && r.wb.Ok() && r.wb.Unread() == q.wb.Unread() + POSITIVE_MSG
  {
    TransactionNames();
    hide Text;
    hide Find;
    hide BoxIs;
    RetrSelectsItsMessage(Transaction, q.core, env, i);
    LoadKeepsMarks(q.core, env);
    ReadersLoad(Some(Decimal(i + 1)), Transaction, q.core, env);
    FlattenOne(POSITIVE_MSG);
    SayAllFits(q.wb, [POSITIVE_MSG]);
    FillTwice(q.wb, POSITIVE_MSG, []);
  }

  /** An accepted RETR as the last command of a read begins the transfer of that message, its response behind what was
      pending. */
  lemma RetrBegins(s: Session, e: Event, init: seq<T.Command>, i: nat, q: Progress)
    requires Inv(s) && Enabled(s, e) && BoxIs(s.core) && Retrieves(s, e, init, i, q)
    ensures var u, mails := Step(s, e), e.env.Mails(q.core.user);
      && Begun(u) && u.core.selected == i && u.core.box.mails == mails && i < |mails|
      && u.wb.Ok() && q.wb.Ok() && u.wb.Unread() == q.wb.Unread() + POSITIVE_MSG && u.clientFd == Some(Write)
  {
    StepInv(s, e);
    var rest :| T.Meanings(T.CutLines(s.line + e.got.value).lines) == init + [RetrCommand(i, rest)];
    var p := Progress(s.core, s.wb, Transaction, true, true);
    var cmds := init + [RetrCommand(i, rest)];
    assert cmds[..|cmds| - 1] == init && cmds[|cmds| - 1] == RetrCommand(i, rest);
    assert Batch(s, e.got.value, e.env) == Exec(q, RetrCommand(i, rest), Transaction, e.env);
    BatchKeepsMarks(p, init, Transaction, e.env);
    L.BatchLocal(p, init, Transaction, e.env);
    hide ExecAll;
    hide BoxIs;
    RetrRuns(q, i, rest, e.env);
    hide Exec;
    RetrMoves(s, e);
  }

  /** The move into READING_MAIL after a batch. */
  lemma RetrMoves(s: Session, e: Event)
    requires Inv(s) && Enabled(s, e) && IsBatch(s, e) && s.current == Some(Transaction) && e.fd.Client?
    requires Batch(s, e.got.value, e.env).local.ReadingMail?
    ensures var u, r := Step(s, e), Batch(s, e.got.value, e.env);
      && u.current == Some(ReadingMail) && u.mailFd == Some(Read) && u.wb == r.wb
      && u.core.selected == r.core.selected && u.core.box == r.core.box && u.clientFd == Some(Write)
  {
    if T.CutLines(s.line + e.got.value).lines == [] {
      NoLinesStay(s, e);
    }
    hide Batch;
  }

  lemma NoLinesStay(s: Session, e: Event)
    requires IsBatch(s, e) && s.wb.Ok() && T.CutLines(s.line + e.got.value).lines == []
    ensures Batch(s, e.got.value, e.env).local == s.current.value
  {
  }

  /** RETR as a whole: the command read in event 0, the transfer of the file of that message with a silent client, and back
      in TRANSACTION. What was sent since is what was pending, `+OK`, and the file exactly through the first recognised
      terminator, if and only if the last send took all that was pending. */
  lemma RetrDelivers(states: seq<Session>, events: seq<Event>, init: seq<T.Command>, i: nat, q: Progress, n: nat)
    requires IsRun(states, events) && n + 1 < |events| && Inv(states[0]) && BoxIs(states[0].core)
    requires Retrieves(states[0], events[0], init, i, q)
    requires var file := events[0].env.files[events[0].env.Mails(q.core.user)[i].path];
      Transferring(states[1..], events[1..], file, n + 1)
    requires (forall k: nat | k <= n :: SilentAt(events[1..], k)) && states[n + 2].current == Some(Transaction)
    ensures q.wb.Ok() && IsRun(states[1..], events[1..]) && StepAt(states, events, n + 1)
    ensures var file := events[0].env.files[events[0].env.Mails(q.core.user)[i].path];
      var end := EndSeen(events[1..], n);
      && end.Some? && end.value <= |file|
      && (SentIn(states[1..], events[1..], n + 1) == q.wb.Unread() + POSITIVE_MSG + file[..end.value] <==>
          SentBy(states[n + 1], events[n + 1]) == states[n + 1].wb.Unread())
  {
    assert StepAt(states, events, 0) && StepAt(states, events, n + 1);
    RetrBegins(states[0], events[0], init, i, q);
    hide Retrieves;
    hide Inv;
    hide Step;
    hide Enabled;
    hide Begun;
    LaterRun(states, events);
    var file := events[0].env.files[events[0].env.Mails(q.core.user)[i].path];
    RetrSendsThroughTerminator(states[1..], events[1..], file, n);
  }

  lemma LaterRun(states: seq<Session>, events: seq<Event>)
    requires IsRun(states, events) && events != []
    ensures IsRun(states[1..], events[1..])
  {
    hide Enabled;
    hide Step;
    forall k: nat | k < |events[1..]|
      ensures StepAt(states[1..], events[1..], k)
    {
      assert StepAt(states, events, k + 1);
    }
  }

  /** A mail of plain lines read in one chunk: the end is seen behind the first line that counts as terminator for the
      automaton, and not at all if no line does, whatever RFC 1939 says of the lone dot. */
  lemma WholeMailInOneChunk(events: seq<Event>, lines: seq<Str>)
    requires Terminator.PlainLines(lines) && |events| == 1
    requires events[0].Readable? && events[0].got == Some(Glue(lines))
    ensures EndSeen(events, 1) == match Terminator.FirstRecognised(lines)
                                  case None => None
                                  case Some(i) => Some(|Glue(lines[..i + 1])|)
  {
    Terminator.EndOfMail(lines);
    assert EndSeen(events, 0).None? && Pos(events, 0) == 0;
  }

  /** A mail that is nothing but the terminator, read in two chunks, wherever they meet: the end is not seen. */
  lemma CutTerminatorIsMissed(events: seq<Event>, k: nat)
    requires |events| == 2 && 0 < k < 5 && events[0].Readable? && events[1].Readable?
    requires events[0].got == Some(Terminator.TERM[..k]) && events[1].got == Some(Terminator.TERM[k..])
    ensures EndSeen(events, 2).None?
  {
    Terminator.CutIsMissed(k);
    assert EndSeen(events, 1).None?;
  }
}
