/** The dialogue as the client reads it: each command by its name, what it does told from the history, and the octets of its
    reply read back as words and numbers. */
module Dialogue {
  import opened Bytes
  import opened Buffers
  import opened Numbers
  import opened Commands
  import opened Mailbox
  import opened Maildrop
  import R = Registry
  import T = Tokenizer

  // ---------------------------------------------------------------------------------------------
  // Reading a line.

  const CRLF: Str := [CR, LF]

  /** A line without the CR LF or the LF it ends with. */
  function Body(line: Str): Str {
    if |line| >= 2 && line[|line| - 2..] == CRLF then line[..|line| - 2]
    else if line != [] && line[|line| - 1] == LF then line[..|line| - 1]
    else line
  }

  /** The words a client sees in a line. */
  function Words(line: Str): seq<Str> {
    T.Split(Body(line))
  }

  /** A word that is the number `n` in decimal digits. */
  predicate Reads(w: Str, n: nat) {
    w != [] && AllDigits(w) && Digits(w, 0) == n
  }

  lemma DecimalReads(n: nat)
    ensures Reads(Decimal(n), n) && SPACE !in Decimal(n) && CR !in Decimal(n)
    ensures n < 0x1_0000_0000 ==> Atoi(Decimal(n)) == n
  {
    DecimalDigits(n);
    if n < 0x1_0000_0000 {
      AtoiOfDecimal(n);
    }
    forall i | 0 <= i < |Decimal(n)|
      ensures Decimal(n)[i] != SPACE && Decimal(n)[i] != CR
    {
      assert IsDigit(Decimal(n)[i]);
    }
  }

  lemma BodyOf(text: Str, end: Str)
    requires end == CRLF || (end == [LF] && (text == [] || text[|text| - 1] != CR))
    ensures Body(text + end) == text
  {
    var line := text + end;
    assert line[|line| - |end|..] == end && line[..|line| - |end|] == text;
    if end == [LF] && |line| >= 2 {
      assert line[|line| - 2] == text[|text| - 1];
    }
  }

  /** Two words. */
  lemma TwoWords(a: Str, b: Str, end: Str)
    requires SPACE !in a && SPACE !in b && CR !in b && end in {CRLF, [LF]} && b != []
    ensures Words(a + [SPACE] + b + end) == [a, b]
  {
    T.SplitWord(a);
    T.SplitWord(b);
    T.SplitConcat(a, b);
    BodyOf(a + [SPACE] + b, end);
  }

  /** Another word in front. */
  lemma WordInFront(a: Str, rest: Str, end: Str)
    requires SPACE !in a && end in {CRLF, [LF]} && rest != [] && rest[|rest| - 1] != CR
    ensures Words(a + [SPACE] + rest + end) == [a] + T.Split(rest)
  {
    T.SplitWord(a);
    T.SplitConcat(a, rest);
    BodyOf(a + [SPACE] + rest, end);
  }

  /** The line of STAT, and of LIST with a number: status, then the two numbers in that order. */
  lemma StatLineReads(a: nat, b: nat)
    ensures var ws := Words(StatLine(a, b));
      |ws| == 3 && ws[0] == Text("+OK") && Reads(ws[1], a) && Reads(ws[2], b)
  {
    DecimalReads(a);
    DecimalReads(b);
    OkWord();
    var x, y := Decimal(a), Decimal(b);
    assert StatLine(a, b) == Text("+OK") + [SPACE] + (x + [SPACE] + y) + CRLF by {
      StatLineParts(x, y);
    }
    T.SplitWord(x);
    T.SplitWord(y);
    T.SplitConcat(x, y);
    hide StatLine;
    hide Text;
    hide T.Split;
    hide Body;
    WordInFront(Text("+OK"), x + [SPACE] + y, CRLF);
  }

  lemma OkWord()
    ensures SPACE !in Text("+OK") && CR !in Text("+OK") && Text("+OK ") == Text("+OK") + [SPACE]
    ensures Text(" ") == [SPACE] && Text("\r\n") == CRLF && Text("\n") == [LF]
  {
  }

  lemma StatLineParts(x: Str, y: Str)
    ensures Text("+OK ") + x + Text(" ") + y + Text("\r\n") == Text("+OK") + [SPACE] + (x + [SPACE] + y) + CRLF
  {
    OkWord();
    hide Text;
  }

  /** A row of LIST: number, then size. */
  lemma ListRowReads(row: Row)
    ensures var ws := Words(ListRow(row));
      |ws| == 2 && Reads(ws[0], row.number) && Reads(ws[1], row.size)
      && (row.number < 0x1_0000_0000 ==> Atoi(ws[0]) == row.number)
  {
    DecimalReads(row.number);
    DecimalReads(row.size);
    OkWord();
    hide Text;
    hide Words;
    TwoWords(Decimal(row.number), Decimal(row.size), [LF]);
  }

  /** Status, how many messages, and their octets in brackets. */
  predicate IsHeader(line: Str, qty: nat, octets: nat) {
    var ws := Words(line);
    && |ws| == 5 && ws[0] == Text("+OK") && Reads(ws[1], qty) && ws[2] == Text("messages")
    && |ws[3]| > 1 && ws[3][0] == 40 && Reads(ws[3][1..], octets) && ws[4] == Text("octets)")
  }

  /** The header of LIST, which is RSET's reply too. */
  lemma ListHeaderReads(qty: nat, octets: nat)
    ensures IsHeader(ListHeader(qty, octets), qty, octets)
  {
    DecimalReads(qty);
    DecimalReads(octets);
    var a, b, c, d, e := Text("+OK"), Decimal(qty), Text("messages"), [40] + Decimal(octets), Text("octets)");
    HeaderParts(Decimal(qty), Decimal(octets));
    HeaderWords();
    hide Text;
    var ws := [a, b, c, d, e];
    assert T.NoSpaces(ws);
    JoinFive(a, b, c, d, e);
    T.SplitOfJoin(ws);
    hide T.Join;
    hide T.Split;
    BodyOf(T.Join(ws), CRLF);
    assert d[1..] == Decimal(octets);
  }

  lemma HeaderWords()
    ensures SPACE !in Text("+OK") && SPACE !in Text("messages") && SPACE !in Text("octets)")
  {
  }

  lemma HeaderParts(x: Str, y: Str)
    ensures Text("+OK ") + x + Text(" messages (") + y + Text(" octets)\r\n") ==
            Text("+OK") + [SPACE] + x + [SPACE] + Text("messages") + [SPACE] + ([40] + y) + [SPACE] + Text("octets)") + CRLF
  {
    HeaderTexts();
    hide Text;
  }

  lemma HeaderTexts()
    ensures Text("+OK ") == Text("+OK") + [SPACE]
    ensures Text(" messages (") == [SPACE] + Text("messages") + [SPACE] + [40]
    ensures Text(" octets)\r\n") == [SPACE] + Text("octets)") + CRLF
  {
  }

  lemma JoinFive(a: Str, b: Str, c: Str, d: Str, e: Str)
    ensures T.Join([a, b, c, d, e]) == a + [SPACE] + b + [SPACE] + c + [SPACE] + d + [SPACE] + e
  {
    T.JoinStep([a], b);
    T.JoinStep([a, b], c);
    T.JoinStep([a, b, c], d);
    T.JoinStep([a, b, c, d], e);
    assert T.Join([a]) == a;
    hide T.Join;
    assert [a] + [b] == [a, b] && [a, b] + [c] == [a, b, c];
    assert [a, b, c] + [d] == [a, b, c, d] && [a, b, c, d] + [e] == [a, b, c, d, e];
  }

  // ---------------------------------------------------------------------------------------------
  // Commands by name.

  /** The command `c`, which can run, is met in state `st` under that name. */
  ghost predicate Meets(p: Progress, st: State, c: T.Command, name: string, env: Env) {
    p.wb.Ok() && p.local == st && HasTable(st) && c.name == Text(name) && Able(p, c, env)
  }

  /** From `p` to `q` these octets were said, if they fit. */
  ghost predicate Says(p: Progress, q: Progress, octets: Str) {
    p.wb.Ok() && (q.fits ==> p.fits && |octets| <= p.wb.Room() && q.wb == p.wb.Fill(octets))
  }

  /** The marks, and the files they stand for, are as before. */
  ghost predicate SameMailbox(a: Core, b: Core) {
    Marks(b.log) == Marks(a.log) && Chosen(b.log) == Chosen(a.log) && b.box.dele == a.box.dele
  }

  /** A reply that finds no room is dropped whole. */
  lemma SayExactly(wb: Fifo, msg: Str)
    requires wb.Ok()
    ensures if |wb.written| + |msg| <= wb.limit then Say(wb, msg).written == wb.written + msg else Say(wb, msg) == wb
    ensures Say(wb, msg).Ok() && Say(wb, msg).read == wb.read && Say(wb, msg).limit == wb.limit
  {
  }

  lemma HandlerSays(p: Progress, c: T.Command, cur: State, env: Env, h: Handler)
    requires p.wb.Ok() && Able(p, c, env) && Find(TableOf(p.local), c.name) == h && !PassBeforeUser(h, c, p.core)
    ensures Defined(h, p.core, env)
    ensures var q, o := Exec(p, c, cur, env), RunHandler(h, c, cur, p.core, env);
      q.core == o.core && q.local == o.next && q.defined && Says(p, q, Flatten(o.replies))
  {
    var o := RunHandler(h, c, cur, p.core, env);
    if |Flatten(o.replies)| <= p.wb.Room() {
      SayAllFits(p.wb, o.replies);
    }
  }

  lemma OneSays(p: Progress, q: Progress, o: Outcome, text: Str)
    requires Says(p, q, Flatten(o.replies)) && o.replies == [text]
    ensures Says(p, q, text)
  {
    FlattenOne(text);
  }

  /** The number a command was given, 0 for none. */
  function Number(arg: Option<Str>): nat {
    if arg.None? then 0 else Atoi(arg.value)
  }

  /** The number is that of a message which is there and not marked. */
  predicate Picks(n: nat, mails: seq<Mail>, marks: set<nat>) {
    1 <= n <= |mails| && n - 1 !in marks
  }

  /** The file of that message opens. */
  predicate Opens(env: Env, mails: seq<Mail>, n: nat) {
    1 <= n <= |mails| && mails[n - 1].path in env.files
  }

  /** Why a number picks nothing. */
  function Refusal(n: nat, mails: seq<Mail>): Str {
    if n == 0 then Text("-ERR Invalid message number\r\n")
    else if n > |mails| then Text("-ERR No such message\r\n")
    else Text("-ERR message already deleted\r\n")
  }

  /** What the check of the argument comes to, for every argument. */
  lemma ChooseExactly(core: Core, env: Env, arg: Option<Str>)
    requires BoxIs(core) && env.Mails(core.user) != []
    ensures var mails, marks, n := env.Mails(core.user), Marks(core.log), Number(arg);
      && Loaded(core, env).box.maxIndex < |Loaded(core, env).box.dele|
      && Choose(Loaded(core, env).box, arg) == if Picks(n, mails, marks) then Message(n - 1) else Refused(Refusal(n, mails))
  {
    LoadKeepsMarks(core, env);
  }

  /** Everything DELE with number `n` changes: the mark and the file it stands for. */
  ghost predicate Deletes(a: Core, b: Core, env: Env, n: nat) {
    var mails, marks := env.Mails(a.user), Marks(a.log);
    && BoxIs(b) && Scan(b.log) == Some(mails)
    && b.selected == a.selected && b.user == a.user && b.pass == a.pass && b.mailOpen == a.mailOpen
    && if Picks(n, mails, marks) then
         Marks(b.log) == marks + {n - 1} && Chosen(b.log) == Chosen(a.log)[n - 1 := mails[n - 1].path]
       else SameMailbox(a, b)
  }

  /** DELE marks a message if and only if the number is that of a message which is there and not marked; then it is that
      message, under its file. Otherwise nothing is marked, nothing else changes, and the reply says why. */
  lemma DeleExactly(p: Progress, c: T.Command, cur: State, env: Env)
    requires Meets(p, Transaction, c, "DELE", env) && BoxIs(p.core)
    ensures var q, mails, n := Exec(p, c, cur, env), env.Mails(p.core.user), Number(c.arg1);
      && Deletes(p.core, q.core, env, n)
      && if Picks(n, mails, Marks(p.core.log)) then Says(p, q, Text("+OK message deleted\r\n")) && q.local == cur
         else Says(p, q, Refusal(n, mails)) && q.local == (if c.arg1.None? then cur else Transaction)
  {
    TransactionNames();
    HandlerSays(p, c, cur, env, Dele);
    DeleRuns(c.arg1, cur, p.core, env);
    DeleReplies(c.arg1, cur, p.core, env);
    var o := RunDele(c.arg1, cur, p.core, env);
    hide Deletes;
    hide Find;
    hide Text;
    hide Says;
    hide Exec;
    hide BoxIs;
    hide Refusal;
    hide Picks;
    hide RunDele;
    OneSays(p, Exec(p, c, cur, env), o, o.replies[0]);
  }

  lemma DeleReplies(arg: Option<Str>, cur: State, core: Core, env: Env)
    requires BoxIs(core) && Defined(Dele, core, env)
    ensures var o, mails, n := RunDele(arg, cur, core, env), env.Mails(core.user), Number(arg);
      if Picks(n, mails, Marks(core.log)) then o.replies == [DELE_MSG] && o.next == cur
      else o.replies == [Refusal(n, mails)] && o.next == (if arg.None? then cur else Transaction)
  {
    ChooseExactly(core, env, arg);
    hide BoxIs;
    hide Choose;
    hide Refusal;
    hide Picks;
  }

  lemma DeleRuns(arg: Option<Str>, cur: State, core: Core, env: Env)
    requires BoxIs(core) && Defined(Dele, core, env)
    ensures Deletes(core, RunDele(arg, cur, core, env).core, env, Number(arg))
  {
    hide RunDele;
    hide BoxIs;
    hide Choose;
    hide Refusal;
    hide Deletes;
    hide Marks;
    hide Chosen;
    hide Scan;
    hide Load;
    hide Env.Mails;
    hide NoMarks;
    var o, n := RunDele(arg, cur, core, env), Number(arg);
    ChooseExactly(core, env, arg);
    LoadKeepsMarks(core, env);
    DeleKeepsMarks(arg, cur, core, env);
    LoadKeepsChosen(core, env);
    DeleMarks(arg, cur, core, env);
    if Picks(n, env.Mails(core.user), Marks(core.log)) {
      DeleMarksIt(core, o.core, env, n);
    } else {
      DeleLeaves(core, env, n);
    }
  }

  lemma DeleLeaves(core: Core, env: Env, n: nat)
    requires BoxIs(core) && env.Mails(core.user) != [] && !Picks(n, env.Mails(core.user), Marks(core.log))
    ensures Deletes(core, Loaded(core, env), env, n)
  {
    LoadKeepsMarks(core, env);
    LoadKeepsChosen(core, env);
    hide BoxIs;
  }

  lemma DeleMarksIt(a: Core, b: Core, env: Env, n: nat)
    requires |a.box.dele| == MAX_MAILS && env.Mails(a.user) != [] && Picks(n, env.Mails(a.user), Marks(a.log)) && BoxIs(b)
    requires var l := Loaded(a, env); b == l.(box := b.box, log := l.log + [Marked(n - 1)])
    requires var l := Loaded(a, env);
      Scan(l.log) == Some(env.Mails(a.user)) && Marks(l.log) == Marks(a.log) && Chosen(l.log) == Chosen(a.log)
    ensures Deletes(a, b, env, n)
  {
    HistoryStep(Loaded(a, env).log, Marked(n - 1));
    hide BoxIs;
    hide Marks;
    hide Chosen;
    hide Scan;
    hide Load;
  }

  lemma LoadKeepsChosen(core: Core, env: Env)
    requires |core.box.dele| == MAX_MAILS && env.Mails(core.user) != []
    ensures Chosen(Loaded(core, env).log) == Chosen(core.log)
  {
    HistoryStep(core.log, Scanned(core.user.value, env.Mails(core.user)));
  }

  /** Everything RETR with number `n` changes: what is selected and whether a mail was opened. */
  ghost predicate Fetched(a: Core, b: Core, env: Env, n: nat) {
    var mails := env.Mails(a.user);
    && BoxIs(b) && SameMailbox(a, b) && Scan(b.log) == Some(mails) && b.user == a.user && b.pass == a.pass
    && if Picks(n, mails, Marks(a.log)) then
         b.selected == n - 1 && b.mailOpen == (a.mailOpen || Opens(env, mails, n))
       else b.selected == a.selected && b.mailOpen == a.mailOpen
  }

  /** RETR selects a message if and only if the number is that of a message which is there and not marked; it then opens the
      file of that message, and ends the session if it cannot. Otherwise nothing is selected, and the reply says why. */
  lemma RetrExactly(p: Progress, c: T.Command, cur: State, env: Env)
    requires Meets(p, Transaction, c, "RETR", env) && BoxIs(p.core)
    ensures var q, mails, n := Exec(p, c, cur, env), env.Mails(p.core.user), Number(c.arg1);
      && Fetched(p.core, q.core, env, n)
      && if Picks(n, mails, Marks(p.core.log)) then
           Says(p, q, Text("+OK\r\n")) && q.local == (if Opens(env, mails, n) then ReadingMail else Error)
         else Says(p, q, Refusal(n, mails)) && q.local == (if c.arg1.None? then cur else Transaction)
  {
    TransactionNames();
    HandlerSays(p, c, cur, env, Retr);
    RetrRuns(c.arg1, cur, p.core, env);
    RetrReplies(c.arg1, cur, p.core, env);
    var o := RunRetr(c.arg1, cur, p.core, env);
    hide Fetched;
    hide Find;
    hide Text;
    hide Says;
    hide Exec;
    hide BoxIs;
    hide Refusal;
    hide Picks;
    hide RunRetr;
    OneSays(p, Exec(p, c, cur, env), o, o.replies[0]);
  }

  lemma RetrReplies(arg: Option<Str>, cur: State, core: Core, env: Env)
    requires BoxIs(core) && Defined(Retr, core, env)
    ensures var o, mails, n := RunRetr(arg, cur, core, env), env.Mails(core.user), Number(arg);
      if Picks(n, mails, Marks(core.log)) then
        o.replies == [POSITIVE_MSG] && o.next == (if Opens(env, mails, n) then ReadingMail else Error)
      else o.replies == [Refusal(n, mails)] && o.next == (if arg.None? then cur else Transaction)
  {
    ChooseExactly(core, env, arg);
    hide BoxIs;
    hide Choose;
    hide Refusal;
  }

  lemma RetrRuns(arg: Option<Str>, cur: State, core: Core, env: Env)
    requires BoxIs(core) && Defined(Retr, core, env)
    ensures Fetched(core, RunRetr(arg, cur, core, env).core, env, Number(arg))
  {
    ChooseExactly(core, env, arg);
    LoadKeepsMarks(core, env);
    LoadKeepsChosen(core, env);
    ReadersLoad(arg, cur, core, env);
    SameHistory(Loaded(core, env), RunRetr(arg, cur, core, env).core);
    hide BoxIs;
    hide Choose;
    hide Refusal;
    hide Load;
  }

  /** One line for each message of `left`, in order: its number, as a command takes it, and its size. */
  ghost predicate AreRows(rows: seq<Str>, mails: seq<Mail>, left: set<nat>)
    requires forall i | i in left :: i < |mails|
  {
    && |rows| == |left|
    && (forall k | 0 <= k < |rows| :: IsRow(rows[k], mails, left))
    && (forall j, k | 0 <= j < k < |rows| :: RowNumber(rows[j]) < RowNumber(rows[k]))
  }

  ghost predicate IsRow(line: Str, mails: seq<Mail>, left: set<nat>)
    requires forall i | i in left :: i < |mails|
  {
    var ws, n := Words(line), RowNumber(line);
    |ws| == 2 && n > 0 && n - 1 in left && Reads(ws[0], n) && Reads(ws[1], mails[n - 1].size)
  }

  /** What DELE and RETR make of the first word of the line. */
  function RowNumber(line: Str): nat {
    if |Words(line)| == 0 then 0 else Number(Some(Words(line)[0]))
  }

  lemma RowIs(row: Row, mails: seq<Mail>, left: set<nat>)
    requires (forall i | i in left :: i < |mails|) && |mails| < 0x1_0000_0000
    requires 1 <= row.number <= |mails| && row.number - 1 in left && row.size == mails[row.number - 1].size
    ensures IsRow(ListRow(row), mails, left) && RowNumber(ListRow(row)) == row.number
  {
    ListRowReads(row);
    hide ListRow;
    hide Words;
    hide Reads;
    hide Atoi;
  }

  lemma RowsAreListing(rows: seq<Row>, mails: seq<Mail>, dele: seq<bool>, marks: set<nat>)
    requires |mails| <= |dele| && |mails| < 0x1_0000_0000 && Lists(rows, mails, dele, |mails|)
    requires forall i: nat | i < |mails| :: dele[i] <==> i !in Remaining(|mails|, marks)
    requires |rows| == |Remaining(|mails|, marks)|
    ensures AreRows(ListRows(rows), mails, Remaining(|mails|, marks))
  {
    var left := Remaining(|mails|, marks);
    InOrder(rows, mails, dele);
    LeftAreMails(|mails|, marks);
    forall k | 0 <= k < |rows|
      ensures RowGood(rows[k], mails, left)
    {
      RowOk(rows, mails, dele, marks, k);
    }
    hide RowGood;
    hide AreRows;
    hide ListRows;
    RowsOf(rows, mails, left);
  }

  /** The row is printed as it should. */
  ghost predicate RowGood(row: Row, mails: seq<Mail>, left: set<nat>)
    requires forall i | i in left :: i < |mails|
  {
    IsRow(ListRow(row), mails, left) && RowNumber(ListRow(row)) == row.number
  }

  lemma LeftAreMails(n: nat, marks: set<nat>)
    ensures forall i | i in Remaining(n, marks) :: i < n
  {
  }

  lemma RowOk(rows: seq<Row>, mails: seq<Mail>, dele: seq<bool>, marks: set<nat>, k: nat)
    requires |mails| <= |dele| && |mails| < 0x1_0000_0000 && Lists(rows, mails, dele, |mails|) && k < |rows|
    requires forall i: nat | i < |mails| :: dele[i] <==> i !in Remaining(|mails|, marks)
    ensures RowGood(rows[k], mails, Remaining(|mails|, marks))
  {
    var row, left := rows[k], Remaining(|mails|, marks);
    assert row.number - 1 in left && row.size == mails[row.number - 1].size;
    hide Lists;
    hide ListRow;
    RowIs(row, mails, left);
  }

  lemma InOrder(rows: seq<Row>, mails: seq<Mail>, dele: seq<bool>)
    requires |mails| <= |dele| && Lists(rows, mails, dele, |mails|)
    ensures forall j, k | 0 <= j < k < |rows| :: rows[j].number < rows[k].number
  {
  }

  lemma RowsOf(rows: seq<Row>, mails: seq<Mail>, left: set<nat>)
    requires (forall i | i in left :: i < |mails|) && |rows| == |left|
    requires forall k | 0 <= k < |rows| :: RowGood(rows[k], mails, left)
    requires forall j, k | 0 <= j < k < |rows| :: rows[j].number < rows[k].number
    ensures AreRows(ListRows(rows), mails, left)
  {
    hide IsRow;
    hide RowNumber;
    hide ListRow;
  }

  /** LIST changes no mark. It says how many messages are left and how many octets they have, and prints one row for each,
      whose number DELE and RETR then accept. */
  lemma ListExactly(p: Progress, c: T.Command, cur: State, env: Env) returns (header: Str, rows: seq<Str>)
    requires Meets(p, Transaction, c, "LIST", env) && BoxIs(p.core) && c.arg1.None?
    ensures var q, mails := Exec(p, c, cur, env), env.Mails(p.core.user);
      var left := Remaining(|mails|, Marks(p.core.log));
      && BoxIs(q.core) && SameMailbox(p.core, q.core) && q.local == Transaction
      && Says(p, q, Flatten([header] + rows + [Text(".\n")]))
      && IsHeader(header, |left|, SizeOf(mails, left)) && AreRows(rows, mails, left)
  {
    TransactionNames();
    HandlerSays(p, c, cur, env, List);
    var mails := env.Mails(p.core.user);
    var left := Remaining(|mails|, Marks(p.core.log));
    var numbers := Rows(mails, p.core.box.dele, |mails|);
    header, rows := ListHeader(|left|, SizeOf(mails, left)), ListRows(numbers);
    ListRuns(p.core, env);
    StatAndListAgree(c, cur, p.core, env);
    ListedAreLeft(p.core, mails);
    ListHeaderReads(|left|, SizeOf(mails, left));
    RowsAreListing(numbers, mails, p.core.box.dele, Marks(p.core.log));
    hide Find;
    hide Says;
    hide Exec;
    hide BoxIs;
    hide RunList;
    hide ListHeader;
    hide AreRows;
    hide IsHeader;
    hide Rows;
  }

  lemma ListRuns(core: Core, env: Env)
    requires BoxIs(core) && Defined(List, core, env)
    ensures forall arg :: var o := RunList(arg, core, env); BoxIs(o.core) && SameMailbox(core, o.core) && o.next == Transaction
  {
    LoadKeepsMarks(core, env);
    LoadKeepsChosen(core, env);
    forall arg
      ensures RunList(arg, core, env).core == Loaded(core, env) && RunList(arg, core, env).next == Transaction
    {
      ReadersLoad(arg, Transaction, core, env);
    }
  }

  /** LIST with a number: that number and the size of that message, if it is there and not marked; why not otherwise. A number
      beyond the last message gets a second line, and the first tells of what lies behind the arrays. */
  lemma ListOneExactly(p: Progress, c: T.Command, cur: State, env: Env)
    requires Meets(p, Transaction, c, "LIST", env) && BoxIs(p.core) && c.arg1.Some?
    ensures var q, mails, marks, n := Exec(p, c, cur, env), env.Mails(p.core.user), Marks(p.core.log), Number(c.arg1);
      && BoxIs(q.core) && SameMailbox(p.core, q.core) && q.local == Transaction
      && if Picks(n, mails, marks) then
           exists line :: Says(p, q, line) && var ws := Words(line);
             |ws| == 3 && ws[0] == Text("+OK") && Reads(ws[1], n) && Reads(ws[2], mails[n - 1].size)
         else if n == 0 then Says(p, q, Text("-ERR Invalid message number\r\n"))
         else if n <= |mails| then Says(p, q, Text("-ERR No such message\r\n"))
         else exists line :: line != [] && Says(p, q, line + Text("-ERR No such message\r\n"))
  {
    TransactionNames();
    HandlerSays(p, c, cur, env, List);
    hide Find;
    hide Text;
    hide Says;
    hide Exec;
    var q, mails, n := Exec(p, c, cur, env), env.Mails(p.core.user), Number(c.arg1);
    var o := RunList(c.arg1, p.core, env);
    ListRuns(p.core, env);
    ListOneReplies(c.arg1.value, p.core, env);
    hide BoxIs;
    hide RunList;
    if n > |mails| {
      TwoSay(p, q, o.replies);
    } else {
      OneSays(p, q, o, o.replies[0]);
      if Picks(n, mails, Marks(p.core.log)) {
        StatLineReads(n, mails[n - 1].size);
      }
    }
  }

  lemma ListOneReplies(arg: Str, core: Core, env: Env)
    requires BoxIs(core) && Defined(List, core, env)
    ensures var replies, mails, n := RunList(Some(arg), core, env).replies, env.Mails(core.user), Atoi(arg);
      if n == 0 then replies == [INVALID_INDEX_MSG]
      else if n > |mails| then |replies| == 2 && replies[0] != [] && replies[1] == NO_MSG_MSG
      else if n - 1 in Marks(core.log) then replies == [NO_MSG_MSG]
      else replies == [StatLine(n, mails[n - 1].size)]
  {
    LoadKeepsMarks(core, env);
    StartOk();
    hide BoxIs;
  }

  lemma StartOk()
    ensures Text("+OK ") != [] && NO_MSG_MSG != []
  {
  }

  lemma TwoSay(p: Progress, q: Progress, replies: seq<Str>)
    requires |replies| == 2 && Says(p, q, Flatten(replies))
    ensures Says(p, q, replies[0] + replies[1])
  {
    FlattenOne(replies[0]);
    FlattenStep(replies, 1);
    assert replies[..1] == [replies[0]] && replies[..2] == replies;
  }

  /** STAT changes no mark and says how many messages are left and how many octets they have, in that order. */
  lemma StatExactly(p: Progress, c: T.Command, cur: State, env: Env) returns (line: Str)
    requires Meets(p, Transaction, c, "STAT", env) && BoxIs(p.core)
    ensures var q, mails := Exec(p, c, cur, env), env.Mails(p.core.user);
      var left, ws := Remaining(|mails|, Marks(p.core.log)), Words(line);
      && BoxIs(q.core) && SameMailbox(p.core, q.core) && q.local == Transaction && Says(p, q, line)
      && |ws| == 3 && ws[0] == Text("+OK") && Reads(ws[1], |left|) && Reads(ws[2], SizeOf(mails, left))
  {
    TransactionNames();
    HandlerSays(p, c, cur, env, Stat);
    hide Find;
    hide Text;
    hide Says;
    hide Exec;
    var mails := env.Mails(p.core.user);
    var left := Remaining(|mails|, Marks(p.core.log));
    line := StatLine(|left|, SizeOf(mails, left));
    StatLineReads(|left|, SizeOf(mails, left));
    LoadKeepsMarks(p.core, env);
    LoadKeepsChosen(p.core, env);
    StatReply(c, cur, p.core, env);
    OneSays(p, Exec(p, c, cur, env), RunHandler(Stat, c, cur, p.core, env), line);
  }

  lemma StatReply(c: T.Command, cur: State, core: Core, env: Env)
    requires BoxIs(core) && Defined(Stat, core, env)
    ensures var o, mails := RunHandler(Stat, c, cur, core, env), env.Mails(core.user);
      var left := Remaining(|mails|, Marks(core.log));
      o.core == Loaded(core, env) && o.next == Transaction && o.replies == [StatLine(|left|, SizeOf(mails, left))]
  {
    var mails := env.Mails(core.user);
    CountersOfMarks(mails, core.box.dele, Marks(core.log), |mails|);
    hide StatLine;
  }

  /** RSET clears the marks of the messages up to the last one loaded, and only these, and says what `Announced` has. */
  lemma RsetExactly(p: Progress, c: T.Command, cur: State, env: Env) returns (line: Str)
    requires Meets(p, Transaction, c, "RSET", env) && BoxIs(p.core)
    ensures var q, says := Exec(p, c, cur, env), Announced(p.core.log);
      && BoxIs(q.core) && Marks(q.core.log) == (set i | i in Marks(p.core.log) && i >= Span(p.core.log))
      && q.core.user == p.core.user && q.core.pass == p.core.pass && q.core.selected == p.core.selected && q.local == cur
      && Says(p, q, line) && IsHeader(line, says.0, says.1) && q.core.box.qty == says.0 && q.core.box.total == says.1
  {
    TransactionNames();
    HandlerSays(p, c, cur, env, Rset);
    hide Find;
    hide Text;
    hide Says;
    hide Exec;
    var says := Announced(p.core.log);
    line := ListHeader(says.0, says.1);
    ListHeaderReads(says.0, says.1);
    hide ListHeader;
    RsetKeepsMarks(cur, p.core);
    ResetReply(c, cur, p.core, env);
    hide BoxIs;
    OneSays(p, Exec(p, c, cur, env), RunRset(cur, p.core), line);
  }

  /** The handlers that do not look at the mailbox. */
  lemma OthersRun(h: Handler, c: T.Command, cur: State, core: Core, env: Env)
    requires BoxOk(core.box)
    ensures RunHandler(Noop, c, cur, core, env) == Outcome(core, cur, [Text("+OK\r\n")])
    ensures RunHandler(TransCapa, c, cur, core, env) ==
            Outcome(core, Transaction,
                    [Text("+OK\r\nCAPA\r\nUSER\r\nPIPELINING\r\nSTAT\r\nLIST\r\nRETR\r\nDELE\r\nRSET\r\nNOOP\r\n.\r\n")])
    ensures RunHandler(TransQuit, c, cur, core, env) == Outcome(core, Update, [Text("+OK\r\n")])
    ensures RunHandler(Invalid, c, cur, core, env) == Outcome(core, cur, [Text("-ERR Unknown command\r\n")])
    ensures RunHandler(AuthCapa, c, cur, core, env) ==
            Outcome(core, Auth, [Text("+OK\r\nCAPA\r\nUSER\r\nPIPELINING\r\n.\r\n")])
    ensures RunHandler(AuthQuit, c, cur, core, env) == Outcome(core, Done, [Text("+OK closing connection\r\n")])
  {
  }

  /** A handler that says one thing and changes nothing. */
  lemma OneReply(p: Progress, c: T.Command, cur: State, env: Env, h: Handler, next: State, text: Str)
    requires p.wb.Ok() && Able(p, c, env) && Find(TableOf(p.local), c.name) == h && !h.Pass?
    requires RunHandler(h, c, cur, p.core, env) == Outcome(p.core, next, [text])
    ensures var q := Exec(p, c, cur, env);
      q.core == p.core && q.local == next && Says(p, q, text)
  {
    HandlerSays(p, c, cur, env, h);
    FlattenOne(text);
    hide RunHandler;
    hide Says;
    hide Exec;
  }

  lemma OtherHandlers(w: Str)
    requires w !in {Text("STAT"), Text("LIST"), Text("RETR"), Text("DELE"), Text("RSET")}
    ensures Find(TableOf(Transaction), w) ==
            if w == Text("NOOP") then Noop else if w == Text("CAPA") then TransCapa
            else if w == Text("QUIT") then TransQuit else Invalid
  {
    TransactionNames();
    OtherNames(w);
    hide Text;
    hide Find;
  }

  /** The other commands of TRANSACTION change nothing: NOOP, CAPA and unknown words stay, and QUIT asks for UPDATE. */
  lemma OthersExactly(p: Progress, c: T.Command, cur: State, env: Env)
    requires p.wb.Ok() && p.local == Transaction && Able(p, c, env)
    requires c.name !in {Text("STAT"), Text("LIST"), Text("RETR"), Text("DELE"), Text("RSET")}
    ensures var q := Exec(p, c, cur, env);
      && q.core == p.core
      && if c.name == Text("NOOP") then q.local == cur && Says(p, q, Text("+OK\r\n"))
         else if c.name == Text("CAPA") then
           q.local == Transaction &&
           Says(p, q, Text("+OK\r\nCAPA\r\nUSER\r\nPIPELINING\r\nSTAT\r\nLIST\r\nRETR\r\nDELE\r\nRSET\r\nNOOP\r\n.\r\n"))
         else if c.name == Text("QUIT") then q.local == Update && Says(p, q, Text("+OK\r\n"))
         else q.local == cur && Says(p, q, Text("-ERR Unknown command\r\n"))
  {
    OtherHandlers(c.name);
    OthersRun(Noop, c, cur, p.core, env);
    hide *;
    if c.name == Text("NOOP") {
      OneReply(p, c, cur, env, Noop, cur, Text("+OK\r\n"));
    } else if c.name == Text("CAPA") {
      OneReply(p, c, cur, env, TransCapa, Transaction,
               Text("+OK\r\nCAPA\r\nUSER\r\nPIPELINING\r\nSTAT\r\nLIST\r\nRETR\r\nDELE\r\nRSET\r\nNOOP\r\n.\r\n"));
    } else if c.name == Text("QUIT") {
      OneReply(p, c, cur, env, TransQuit, Update, Text("+OK\r\n"));
    } else {
      OneReply(p, c, cur, env, Invalid, cur, Text("-ERR Unknown command\r\n"));
    }
  }

  /** In AUTH: USER takes a name if one is given, CAPA and unknown words change nothing, and QUIT ends the session. */
  lemma AuthExactly(p: Progress, c: T.Command, cur: State, env: Env)
    requires p.wb.Ok() && p.local == Auth && Able(p, c, env) && c.name != Text("PASS")
    ensures var q := Exec(p, c, cur, env);
      && q.core == (if c.name == Text("USER") && c.arg1.Some? then p.core.(user := c.arg1) else p.core)
      && if c.name == Text("USER") then q.local == Auth && Says(p, q, Text("+OK\r\n"))
         else if c.name == Text("CAPA") then
           q.local == Auth && Says(p, q, Text("+OK\r\nCAPA\r\nUSER\r\nPIPELINING\r\n.\r\n"))
         else if c.name == Text("QUIT") then q.local == Done && Says(p, q, Text("+OK closing connection\r\n"))
         else q.local == cur && Says(p, q, Text("-ERR Unknown command\r\n"))
  {
    AuthNames();
    OtherNames(c.name);
    OthersRun(Noop, c, cur, p.core, env);
    if c.name == Text("USER") {
      UserRuns(p, c, cur, env);
    }
    hide Text;
    hide Find;
    hide RunHandler;
    hide Exec;
    hide Says;
    if c.name == Text("CAPA") {
      OneReply(p, c, cur, env, AuthCapa, Auth, Text("+OK\r\nCAPA\r\nUSER\r\nPIPELINING\r\n.\r\n"));
    } else if c.name == Text("QUIT") {
      OneReply(p, c, cur, env, AuthQuit, Done, Text("+OK closing connection\r\n"));
    } else if c.name != Text("USER") {
      OneReply(p, c, cur, env, Invalid, cur, Text("-ERR Unknown command\r\n"));
    }
  }

  lemma UserRuns(p: Progress, c: T.Command, cur: State, env: Env)
    requires p.wb.Ok() && Able(p, c, env) && Find(TableOf(p.local), c.name) == User
    ensures var q := Exec(p, c, cur, env);
      && q.core == (if c.arg1.Some? then p.core.(user := c.arg1) else p.core) && q.local == Auth
      && Says(p, q, Text("+OK\r\n"))
  {
    HandlerSays(p, c, cur, env, User);
    FlattenOne(POSITIVE_MSG);
    hide Find;
    hide Exec;
    hide Says;
  }

  /** PASS logs in if and only if a user was named and the pair is registered, and says so; otherwise nothing changes, and the
      reply says why. One refusal is taken for a state when it does not fit. */
  lemma PassExactly(p: Progress, c: T.Command, cur: State, env: Env)
    requires Meets(p, Auth, c, "PASS", env)
    ensures var q, user := Exec(p, c, cur, env), p.core.user;
      if c.arg1.Some? && user.Some? && R.Account(user.value, c.arg1.value) in env.registry then
        && q.core == p.core.(pass := c.arg1, log := p.core.log + [LoggedIn(user.value, c.arg1.value, env.registry)])
        && q.local == Transaction && Says(p, q, Text("+OK Logged in\r\n"))
      else if c.arg1.Some? && user.None? then
        && q.core == p.core && Says(p, q, Text("-ERR No username given\r\n"))
        && q.local == (if p.wb.Room() < 24 then ReadingMail else Auth)
      else q.core == p.core && q.local == Auth && Says(p, q, Text("-ERR [AUTH] Authentication failed\r\n"))
  {
    AuthNames();
    if c.arg1.Some? && p.core.user.None? {
      UnnamedPass(p, c, cur, env);
    } else {
      HandlerSays(p, c, cur, env, Pass);
      FlattenOne(LOGIN_MSG);
      FlattenOne(AUTH_ERROR_MSG);
    }
    hide Text;
    hide Find;
    hide Exec;
    hide Says;
  }

  lemma UnnamedPass(p: Progress, c: T.Command, cur: State, env: Env)
    requires p.wb.Ok() && Able(p, c, env) && Find(TableOf(p.local), c.name) == Pass && c.arg1.Some? && p.core.user.None?
    ensures var q := Exec(p, c, cur, env);
      && q.core == p.core && Says(p, q, Text("-ERR No username given\r\n"))
      && q.local == (if p.wb.Room() < 24 then ReadingMail else Auth)
  {
    FlattenOne(PASS_NOUSER_MSG);
    assert |PASS_NOUSER_MSG| == 24;
    if |PASS_NOUSER_MSG| <= p.wb.Room() {
      SayAllFits(p.wb, [PASS_NOUSER_MSG]);
    }
    hide Find;
    hide SayAll;
    hide Text;
  }

  // ---------------------------------------------------------------------------------------------
  // Where commands lead.

  /** The command opens the file of a message. */
  predicate Fetches(p: Progress, c: T.Command, env: Env) {
    p.local == Transaction && c.name == Text("RETR") && Picks(Number(c.arg1), env.Mails(p.core.user), Marks(p.core.log))
  }

  /** Which command asks for which state, all commands taken together: UPDATE, where mails are removed, is asked for by QUIT in
      TRANSACTION and by nothing else. */
  lemma LeadsExactly(p: Progress, c: T.Command, cur: State, env: Env)
    requires p.wb.Ok() && Able(p, c, env) && BoxIs(p.core) && HasTable(cur)
    ensures var next := Exec(p, c, cur, env).local;
      && (next == Update <==> p.local == Transaction && c.name == Text("QUIT"))
      && (next == Done <==> p.local == Auth && c.name == Text("QUIT"))
      && (next == Error <==> Fetches(p, c, env) && !Opens(env, env.Mails(p.core.user), Number(c.arg1)))
      && (next == ReadingMail <==>
            || (Fetches(p, c, env) && Opens(env, env.Mails(p.core.user), Number(c.arg1)))
            || (p.local == Auth && c.name == Text("PASS") && c.arg1.Some? && p.core.user.None? && p.wb.Room() < 24))
      && (p.local == cur == Auth ==>
            (next == Transaction <==>
               && c.name == Text("PASS") && c.arg1.Some? && p.core.user.Some?
               && R.Account(p.core.user.value, c.arg1.value) in env.registry))
  {
    AuthNames();
    TransactionNames();
    hide Text;
    hide Find;
    hide Exec;
    hide Says;
    hide BoxIs;
    hide Picks;
    if p.local == Auth {
      if c.name == Text("PASS") {
        PassExactly(p, c, cur, env);
      } else {
        AuthExactly(p, c, cur, env);
      }
    } else {
      MailboxLeads(p, c, cur, env);
    }
  }

  lemma MailboxLeads(p: Progress, c: T.Command, cur: State, env: Env)
    requires p.wb.Ok() && Able(p, c, env) && BoxIs(p.core) && p.local == Transaction && HasTable(cur)
    ensures var next := Exec(p, c, cur, env).local;
      if c.name == Text("QUIT") then next == Update
      else if Fetches(p, c, env) then next == if Opens(env, env.Mails(p.core.user), Number(c.arg1)) then ReadingMail else Error
      else next == Transaction || next == cur
  {
    TransactionNames();
    hide Text;
    hide Find;
    hide Exec;
    hide Says;
    hide BoxIs;
    hide Picks;
    hide SameMailbox;
    if c.name == Text("STAT") {
      var _ := StatExactly(p, c, cur, env);
    } else if c.name == Text("LIST") {
      if c.arg1.None? {
        var _, _ := ListExactly(p, c, cur, env);
      } else {
        ListOneExactly(p, c, cur, env);
      }
    } else if c.name == Text("RETR") {
      RetrExactly(p, c, cur, env);
    } else if c.name == Text("DELE") {
      DeleExactly(p, c, cur, env);
    } else if c.name == Text("RSET") {
      var _ := RsetExactly(p, c, cur, env);
    } else {
      OthersExactly(p, c, cur, env);
    }
  }

  // ---------------------------------------------------------------------------------------------
  // The mailbox on disk.

  /** The mails of a user: the first thirty entries of the directory `cur` under the maildir and the name of the user, other
      than `.` and `..`, in order; none if there is no such directory. */
  lemma MailsAreEntries(env: Env, user: Str) returns (at: seq<nat>)
    requires user in env.dirs
    ensures var prefix, dir := env.maildir + user + Text("/cur/"), env.dirs[user];
      && (forall j, k | 0 <= j < k < |at| :: at[j] < at[k])
      && (forall i: nat | i < |dir| :: i in at <==> dir[i].name != Text(".") && dir[i].name != Text(".."))
      && |env.Mails(Some(user))| == (if |at| < 30 then |at| else 30)
      && forall k | 0 <= k < |env.Mails(Some(user))| ::
           at[k] < |dir| && env.Mails(Some(user))[k] == Mail(prefix + dir[at[k]].name, dir[at[k]].size)
  {
    at := VisibleExactly(env.Prefix(user), env.Entries(user));
    hide Visible;
    hide Text;
  }

  lemma NoMails(env: Env, user: Str)
    requires user !in env.dirs
    ensures env.Mails(Some(user)) == []
  {
  }
}
