/** comparator.c: which command a line is, and what it does to a session. */
module Commands {
  import opened Bytes
  import opened Buffers
  import opened Numbers
  import T = Tokenizer
  import R = Registry
  import opened Maildrop

  /** pop3nio.h, in the order of the enum. */
  datatype State = Auth | Transaction | ReadingMail | WritingMail | Update | Done | Error

  /** The states with a command table. */
  predicate HasTable(st: State) {
    st.Auth? || st.Transaction?
  }

  /** Where only somebody who gave a valid password may be. */
  predicate NeedsLogin(st: State) {
    st.Transaction? || st.ReadingMail? || st.WritingMail? || st.Update?
  }

  const AUTH_CAPA_MSG := Text("+OK\r\nCAPA\r\nUSER\r\nPIPELINING\r\n.\r\n")
  const TRANS_CAPA_MSG :=
    Text("+OK\r\nCAPA\r\nUSER\r\nPIPELINING\r\nSTAT\r\nLIST\r\nRETR\r\nDELE\r\nRSET\r\nNOOP\r\n.\r\n")
  const INVALID_COMMAND_MSG := Text("-ERR Unknown command\r\n")
  const PASS_NOUSER_MSG := Text("-ERR No username given\r\n")
  const AUTH_ERROR_MSG := Text("-ERR [AUTH] Authentication failed\r\n")
  const INVALID_INDEX_MSG := Text("-ERR Invalid message number\r\n")
  const NO_MSG_MSG := Text("-ERR No such message\r\n")
  const LOGIN_MSG := Text("+OK Logged in\r\n")
  const DELE_MSG := Text("+OK message deleted\r\n")
  const AUTH_QUIT_MSG := Text("+OK closing connection\r\n")
  const ALREADY_DELE_MSG := Text("-ERR message already deleted\r\n")
  const POSITIVE_MSG := Text("+OK\r\n")

  /** LIST_FMT */
  function ListHeader(qty: nat, octets: nat): Str {
    Text("+OK ") + Decimal(qty) + Text(" messages (") + Decimal(octets) + Text(" octets)\r\n")
  }

  /** STAT_FMT */
  function StatLine(a: nat, b: nat): Str {
    Text("+OK ") + Decimal(a) + Text(" ") + Decimal(b) + Text("\r\n")
  }

  function ListRow(row: Row): Str {
    Decimal(row.number) + Text(" ") + Decimal(row.size) + Text("\n")
  }

  function ListRows(rows: seq<Row>): (r: seq<Str>)
    ensures |r| == |rows| && forall i | 0 <= i < |r| :: r[i] == ListRow(rows[i])
  {
    seq(|rows|, i requires 0 <= i < |rows| => ListRow(rows[i]))
  }

  const LIST_END := Text(".\n")

  // ---------------------------------------------------------------------------------------------
  // The command tables.

  datatype Handler =
    | AuthCapa | User | Pass | AuthQuit
    | Noop | Stat | List | Retr | Dele | Rset | TransCapa | TransQuit
    | Invalid

  datatype CommandType = CommandType(id: Str, handler: Handler)

  const AUTH_COMMANDS: seq<CommandType> := [
    CommandType(Text("CAPA"), AuthCapa), CommandType(Text("USER"), User), CommandType(Text("PASS"), Pass),
    CommandType(Text("QUIT"), AuthQuit)]

  const TRANSACTION_COMMANDS: seq<CommandType> := [
    CommandType(Text("NOOP"), Noop), CommandType(Text("STAT"), Stat), CommandType(Text("LIST"), List),
    CommandType(Text("RETR"), Retr), CommandType(Text("DELE"), Dele), CommandType(Text("RSET"), Rset),
    CommandType(Text("CAPA"), TransCapa), CommandType(Text("QUIT"), TransQuit)]

  function TableOf(st: State): seq<CommandType>
    requires HasTable(st)
  {
    if st.Auth? then AUTH_COMMANDS else TRANSACTION_COMMANDS
  }

  function Find(table: seq<CommandType>, word: Str): Handler {
    if table == [] then Invalid else if table[0].id == word then table[0].handler else Find(table[1..], word)
  }

  /** The lookup loop of `comparator`. */
  method Comparator(word: Str, st: State) returns (h: Handler)
    requires HasTable(st)
    ensures h == Find(TableOf(st), word)
  {
    var table := TableOf(st);
    var i := 0;
    while i < |table|
      invariant 0 <= i <= |table|
      invariant Find(table, word) == Find(table[i..], word)
    {
      if table[i].id == word {
        return table[i].handler;
      }
      i := i + 1;
    }
    return Invalid;
  }

  lemma {:induction false} FindIsMember(table: seq<CommandType>, word: Str)
    ensures Find(table, word) == Invalid || exists i :: 0 <= i < |table| && table[i] == CommandType(word, Find(table, word))
  {
    if table != [] && table[0].id != word {
      FindIsMember(table[1..], word);
      if Find(table, word) != Invalid {
        var i :| 0 <= i < |table[1..]| && table[1..][i] == CommandType(word, Find(table, word));
        assert table[i + 1] == CommandType(word, Find(table, word));
      }
    } else if table != [] {
      assert table[0] == CommandType(word, Find(table, word));
    }
  }

  /** A state's table only leads to that state's commands: login belongs to AUTH, the mailbox to TRANSACTION. */
  lemma TableSeparation(st: State, word: Str)
    requires HasTable(st)
    ensures var h := Find(TableOf(st), word);
      h.Invalid? || (st.Auth? <==> h.AuthCapa? || h.User? || h.Pass? || h.AuthQuit?)
  {
    FindIsMember(TableOf(st), word);
  }

  lemma {:induction false} FindAt(table: seq<CommandType>, i: nat)
    requires i < |table| && forall j | 0 <= j < i :: table[j].id != table[i].id
    ensures Find(table, table[i].id) == table[i].handler
  {
    if i > 0 {
      FindAt(table[1..], i - 1);
    }
  }

  lemma FirstLetters()
    ensures Text("CAPA")[0] == 67 && Text("USER")[0] == 85 && Text("PASS")[0] == 80 && Text("QUIT")[0] == 81
    ensures Text("NOOP")[0] == 78 && Text("STAT")[0] == 83 && Text("LIST")[0] == 76 && Text("DELE")[0] == 68
    ensures Text("RETR")[0] == Text("RSET")[0] == 82 && Text("RETR")[1] == 69 && Text("RSET")[1] == 83
  {
  }

  /** The names of AUTH. */
  lemma AuthNames()
    ensures var t := TableOf(Auth);
      && Find(t, Text("CAPA")) == AuthCapa && Find(t, Text("USER")) == User
      && Find(t, Text("PASS")) == Pass && Find(t, Text("QUIT")) == AuthQuit
  {
    var t := TableOf(Auth);
    FirstLetters();
    hide Text;
    hide Find;
    FindAt(t, 0);
    FindAt(t, 1);
    FindAt(t, 2);
    FindAt(t, 3);
  }

  /** The names of TRANSACTION. */
  lemma TransactionNames()
    ensures var t := TableOf(Transaction);
      && Find(t, Text("NOOP")) == Noop && Find(t, Text("STAT")) == Stat && Find(t, Text("LIST")) == List
      && Find(t, Text("RETR")) == Retr && Find(t, Text("DELE")) == Dele && Find(t, Text("RSET")) == Rset
      && Find(t, Text("CAPA")) == TransCapa && Find(t, Text("QUIT")) == TransQuit
  {
    FirstLetters();
    hide Text;
    hide Find;
    FirstNames();
    LastNames();
  }

  lemma FirstNames()
    ensures var t := TableOf(Transaction);
      && Find(t, t[0].id) == t[0].handler && Find(t, t[1].id) == t[1].handler
      && Find(t, t[2].id) == t[2].handler && Find(t, t[3].id) == t[3].handler
  {
    var t := TableOf(Transaction);
    FirstLetters();
    hide Text;
    hide Find;
    FindAt(t, 0);
    FindAt(t, 1);
    FindAt(t, 2);
    FindAt(t, 3);
  }

  lemma LastNames()
    ensures var t := TableOf(Transaction);
      && Find(t, t[4].id) == t[4].handler && Find(t, t[5].id) == t[5].handler
      && Find(t, t[6].id) == t[6].handler && Find(t, t[7].id) == t[7].handler
  {
    var t := TableOf(Transaction);
    IdsDiffer();
    hide TRANSACTION_COMMANDS;
    hide Find;
    FindAt(t, 4);
    FindAt(t, 5);
    FindAt(t, 6);
    FindAt(t, 7);
  }

  lemma IdsDiffer()
    ensures var t := TableOf(Transaction);
      |t| == 8 && forall i, j | 0 <= i < j < |t| :: t[i].id != t[j].id
  {
    FirstLetters();
    hide Text;
  }

  const AUTH_NAMES: set<Str> := {Text("CAPA"), Text("USER"), Text("PASS"), Text("QUIT")}

  const TRANSACTION_NAMES: set<Str> :=
    {Text("NOOP"), Text("STAT"), Text("LIST"), Text("RETR"), Text("DELE"), Text("RSET"), Text("CAPA"), Text("QUIT")}

  /** Any other word is an unknown command. */
  lemma OtherNames(w: Str)
    ensures Find(TableOf(Auth), w) == Invalid <==> w !in AUTH_NAMES
    ensures Find(TableOf(Transaction), w) == Invalid <==> w !in TRANSACTION_NAMES
  {
    AuthNames();
    TransactionNames();
    FoundIsNamed(w);
    hide Find;
    hide Text;
    hide AUTH_COMMANDS;
    hide TRANSACTION_COMMANDS;
  }

  lemma FoundIsNamed(w: Str)
    ensures Find(TableOf(Auth), w) != Invalid ==> w in AUTH_NAMES
    ensures Find(TableOf(Transaction), w) != Invalid ==> w in TRANSACTION_NAMES
  {
    FindIsMember(TableOf(Auth), w);
    FindIsMember(TableOf(Transaction), w);
    hide Find;
    hide Text;
  }

  // ---------------------------------------------------------------------------------------------
  // The effect of a command.

  /** What a session does that its observers can tell later. */
  datatype Obs =
    | Arrived(state: State)
    | LoggedIn(user: Str, pass: Str, registry: seq<R.Account>)
    | Scanned(owner: Str, mails: seq<Mail>)
    | Marked(index: nat)
    | Cleared
    | Erased(paths: seq<Str>)

  /** The fields of a session that commands change. */
  datatype Core = Core(user: Option<Str>, pass: Option<Str>, box: Box, selected: nat, mailOpen: bool, log: seq<Obs>)

  const CUR := Text("/cur/")

  /** What commands see of the outside: the registry, the maildir with the directory of each user, the files that open, and
      what lies in memory behind the mailbox arrays, which `LIST n` reads before it checks n. */
  datatype Env = Env(registry: seq<R.Account>, maildir: Str, dirs: map<Str, seq<Entry>>, files: map<Str, Str>, wildMark: bool,
    wildSize: nat)
  {
    /** The path of the user's directory. */
    function Prefix(user: Str): Str {
      maildir + user + CUR
    }

    /** What readdir gives; nothing if the directory cannot be opened. */
    function Entries(user: Str): seq<Entry> {
      if user in dirs then dirs[user] else []
    }

    function Mails(user: Option<Str>): (l: seq<Mail>)
      ensures |l| <= MAX_MAILS
    {
      if user.None? then [] else Listing(Prefix(user.value), Entries(user.value))
    }
  }

  /** The mailbox arrays stay within their memory, and before the first load nothing is marked. */
  predicate BoxOk(b: Box) {
    && |b.dele| == MAX_MAILS && b.maxIndex < MAX_MAILS
    && (b.mails != [] ==> b.maxIndex < |b.mails| <= MAX_MAILS)
    && (b.mails == [] ==> forall i | 0 <= i < MAX_MAILS :: !b.dele[i])
  }

  predicate Loads(h: Handler) {
    h.Stat? || h.List? || h.Retr? || h.Dele?
  }

  /** Loading takes the index of the last mail as `count - 1`, so there must be a user, a directory and a mail in it. */
  predicate Defined(h: Handler, core: Core, env: Env) {
    BoxOk(core.box) && (Loads(h) ==> env.Mails(core.user) != [])
  }

  /** The session after a command, the state to go to and what is written, one entry per write. */
  datatype Outcome = Outcome(core: Core, next: State, replies: seq<Str>)

  function Loaded(core: Core, env: Env): Core
    requires |core.box.dele| == MAX_MAILS && env.Mails(core.user) != []
  {
    var mails := env.Mails(core.user);
    core.(box := Load(core.box, mails), log := core.log + [Scanned(core.user.value, mails)])
  }

  /** RETR and DELE check their argument alike: the message it selects, or the refusal. */
  datatype Choice = Refused(msg: Str) | Message(index: nat)

  function Choose(box: Box, arg: Option<Str>): (c: Choice)
    requires box.maxIndex < |box.dele|
    ensures c.Message? ==> c.index <= box.maxIndex && !box.dele[c.index]
  {
    if arg.None? || Atoi(arg.value) == 0 then Refused(INVALID_INDEX_MSG)
    else
      var i := Atoi(arg.value) - 1;
      if i > box.maxIndex then Refused(NO_MSG_MSG) else if box.dele[i] then Refused(ALREADY_DELE_MSG) else Message(i)
  }

  function RunRetr(arg: Option<Str>, cur: State, core: Core, env: Env): Outcome
    requires Defined(Retr, core, env)
  {
    var c := Loaded(core, env);
    match Choose(c.box, arg)
    case Refused(msg) => Outcome(c, if arg.None? then cur else Transaction, [msg])
    case Message(i) =>
      if c.box.mails[i].path in env.files then Outcome(c.(selected := i, mailOpen := true), ReadingMail, [POSITIVE_MSG])
      else Outcome(c.(selected := i), Error, [POSITIVE_MSG])
  }

  function RunDele(arg: Option<Str>, cur: State, core: Core, env: Env): Outcome
    requires Defined(Dele, core, env)
  {
    var c := Loaded(core, env);
    match Choose(c.box, arg)
    case Refused(msg) => Outcome(c, if arg.None? then cur else Transaction, [msg])
    case Message(i) =>
      Outcome(c.(box := c.box.(dele := c.box.dele[i := true]), log := c.log + [Marked(i)]), cur, [DELE_MSG])
  }

  /** The marks up to the last loaded index go; the totals are those of the last load. */
  function RunRset(cur: State, core: Core): (o: Outcome)
    requires core.box.maxIndex < |core.box.dele|
    ensures |o.core.box.dele| == |core.box.dele| && core.log <= o.core.log && o.core.mailOpen == core.mailOpen
  {
    var b := core.box;
    var n := b.maxIndex + 1;
    var cleared := seq(|b.dele|, i requires 0 <= i < |b.dele| => i >= n && b.dele[i]);
    Outcome(core.(box := b.(dele := cleared, qty := n, total := b.original), log := core.log + [Cleared]), cur,
            [ListHeader(n, b.original)])
  }

  function RunList(arg: Option<Str>, core: Core, env: Env): Outcome
    requires Defined(List, core, env)
  {
    var c := Loaded(core, env);
    var b := c.box;
    if arg.None? then
      Outcome(c, Transaction,
              [ListHeader(b.qty, b.total)] + ListRows(Rows(b.mails, b.dele, |b.mails|)) + [LIST_END])
    else
      var index := Atoi(arg.value);
      if index == 0 then Outcome(c, Transaction, [INVALID_INDEX_MSG])
      else if index - 1 > b.maxIndex then
        var mark := if index - 1 < |b.dele| then b.dele[index - 1] else env.wildMark;
        Outcome(c, Transaction, [if mark then NO_MSG_MSG else StatLine(index, env.wildSize), NO_MSG_MSG])
      else if b.dele[index - 1] then Outcome(c, Transaction, [NO_MSG_MSG])
      else Outcome(c, Transaction, [StatLine(index, b.mails[index - 1].size)])
  }

  function RunPass(arg: Option<Str>, core: Core, env: Env): (o: Outcome)
    ensures o.core.box == core.box && core.log <= o.core.log && o.core.mailOpen == core.mailOpen
    ensures o.next.Auth? || (o.next.Transaction? && o.core.log != core.log)
  {
    if arg.Some? && core.user.None? then Outcome(core, Auth, [PASS_NOUSER_MSG])
    else if arg.Some? && R.Account(core.user.value, arg.value) in env.registry then
      Outcome(core.(pass := arg, log := core.log + [LoggedIn(core.user.value, arg.value, env.registry)]), Transaction,
              [LOGIN_MSG])
    else Outcome(core, Auth, [AUTH_ERROR_MSG])
  }

  /** The handlers. `cur` is the state the machine is in, which several of them return. */
  function RunHandler(h: Handler, c: T.Command, cur: State, core: Core, env: Env): Outcome
    requires Defined(h, core, env)
  {
    match h
    case AuthCapa => Outcome(core, Auth, [AUTH_CAPA_MSG])
    case User => Outcome(if c.arg1.Some? then core.(user := c.arg1) else core, Auth, [POSITIVE_MSG])
    case Pass => RunPass(c.arg1, core, env)
    case AuthQuit => Outcome(core, Done, [AUTH_QUIT_MSG])
    case Noop => Outcome(core, cur, [POSITIVE_MSG])
    case Stat => var l := Loaded(core, env); Outcome(l, Transaction, [StatLine(l.box.qty, l.box.total)])
    case List => RunList(c.arg1, core, env)
    case Retr => RunRetr(c.arg1, cur, core, env)
    case Dele => RunDele(c.arg1, cur, core, env)
    case Rset => RunRset(cur, core)
    case TransCapa => Outcome(core, Transaction, [TRANS_CAPA_MSG])
    case TransQuit => Outcome(core, Update, [POSITIVE_MSG])
    case Invalid => Outcome(core, cur, [INVALID_COMMAND_MSG])
  }

  lemma LoadedOk(core: Core, env: Env)
    requires |core.box.dele| == MAX_MAILS && env.Mails(core.user) != []
    ensures BoxOk(Loaded(core, env).box) && Loaded(core, env).box.mails == env.Mails(core.user)
  {
  }

  /** LIST and STAT load; RETR loads and may open a mail. */
  lemma ReadersLoad(arg: Option<Str>, cur: State, core: Core, env: Env)
    requires Defined(Retr, core, env)
    ensures RunList(arg, core, env).core == Loaded(core, env) && RunList(arg, core, env).next.Transaction?
    ensures var o := RunRetr(arg, cur, core, env);
      && o.core.box == Loaded(core, env).box && o.core.log == Loaded(core, env).log && o.core.user == core.user && o.core.pass == core.pass
      && (o.next == cur || o.next.Transaction? || o.next.ReadingMail? || o.next.Error?)
      && (o.next.ReadingMail? && !cur.ReadingMail? ==> o.core.mailOpen) && (core.mailOpen ==> o.core.mailOpen)
  {
  }

  lemma DeleMarks(arg: Option<Str>, cur: State, core: Core, env: Env)
    requires Defined(Dele, core, env)
    ensures var o, l := RunDele(arg, cur, core, env), Loaded(core, env);
      && (o.next == cur || o.next.Transaction?)
      && match Choose(l.box, arg)
         case Refused(msg) => o.core == l && o.replies == [msg]
         case Message(i) => o.core == l.(box := l.box.(dele := l.box.dele[i := true]), log := l.log + [Marked(i)])
  {
  }

  lemma LoadersKeepBox(h: Handler, c: T.Command, cur: State, core: Core, env: Env)
    requires BoxOk(core.box) && Defined(h, core, env) && HasTable(cur) && Loads(h)
    ensures var o := RunHandler(h, c, cur, core, env);
      BoxOk(o.core.box) && !o.next.WritingMail? && core.log <= o.core.log && (core.mailOpen ==> o.core.mailOpen)
  {
    LoadedOk(core, env);
    match h
    case List => ReadersLoad(c.arg1, cur, core, env);
    case Retr => ReadersLoad(c.arg1, cur, core, env);
    case Dele => DeleMarks(c.arg1, cur, core, env);
    case _ =>
  }

  /** What every command keeps, and where it leads. */
  lemma HandlerKeepsBox(h: Handler, c: T.Command, cur: State, core: Core, env: Env)
    requires BoxOk(core.box) && Defined(h, core, env) && HasTable(cur)
    ensures var o := RunHandler(h, c, cur, core, env);
      BoxOk(o.core.box) && !o.next.WritingMail? && core.log <= o.core.log && (core.mailOpen ==> o.core.mailOpen)
  {
    if Loads(h) {
      LoadersKeepBox(h, c, cur, core, env);
    }
  }

  // ---------------------------------------------------------------------------------------------
  // Replies go to the write buffer; one that does not fit is dropped whole.

  /** write_to_buffer */
  function Say(wb: Fifo, msg: Str): Fifo
    requires |wb.written| <= wb.limit
  {
    if wb.Room() < |msg| then wb else wb.Fill(msg)
  }

  function SayAll(wb: Fifo, msgs: seq<Str>): (r: Fifo)
    requires |wb.written| <= wb.limit
    ensures |r.written| <= r.limit == wb.limit && r.read == wb.read && wb.written <= r.written
  {
    if msgs == [] then wb else Say(SayAll(wb, msgs[..|msgs| - 1]), msgs[|msgs| - 1])
  }

  /** The progress of a batch: `local` is the state the last command asked for, `fits` that no reply was dropped,
      `defined` that the code's behaviour is determined so far. */
  datatype Progress = Progress(core: Core, wb: Fifo, local: State, fits: bool, defined: bool)

  /** The PASS reply whose refusal by the buffer the code takes for a state: the one to PASS before USER. */
  predicate PassBeforeUser(h: Handler, c: T.Command, core: Core) {
    h.Pass? && c.arg1.Some? && core.user.None?
  }

  predicate Able(p: Progress, c: T.Command, env: Env) {
    p.defined && HasTable(p.local) && Defined(Find(TableOf(p.local), c.name), p.core, env)
  }

  /** One command of a batch. Beyond the two command tables the code reads other memory: nothing is said of that. */
  function Exec(p: Progress, c: T.Command, cur: State, env: Env): (q: Progress)
    requires |p.wb.written| <= p.wb.limit
    ensures |q.wb.written| <= q.wb.limit == p.wb.limit && q.wb.read == p.wb.read && p.wb.written <= q.wb.written
  {
    if !Able(p, c, env) then p.(defined := false)
    else
      var h := Find(TableOf(p.local), c.name);
      var o := RunHandler(h, c, cur, p.core, env);
      Progress(o.core, SayAll(p.wb, o.replies),
               if PassBeforeUser(h, c, p.core) && p.wb.Room() < |PASS_NOUSER_MSG| then ReadingMail else o.next,
               p.fits && |Flatten(o.replies)| <= p.wb.Room(), true)
  }

  function ExecAll(p: Progress, cmds: seq<T.Command>, cur: State, env: Env): (q: Progress)
    requires |p.wb.written| <= p.wb.limit
    ensures |q.wb.written| <= q.wb.limit == p.wb.limit && q.wb.read == p.wb.read && p.wb.written <= q.wb.written
  {
    if cmds == [] then p else Exec(ExecAll(p, cmds[..|cmds| - 1], cur, env), cmds[|cmds| - 1], cur, env)
  }

  lemma ExecOne(p: Progress, c: T.Command, cur: State, env: Env)
    requires |p.wb.written| <= p.wb.limit
    ensures ExecAll(p, [c], cur, env) == Exec(p, c, cur, env)
  {
    hide Exec;
    assert [c][..0] == [] && ExecAll(p, [c][..0], cur, env) == p;
  }

  lemma {:induction false} ExecAllSplit(p: Progress, a: seq<T.Command>, b: seq<T.Command>, cur: State, env: Env)
    requires |p.wb.written| <= p.wb.limit
    ensures ExecAll(p, a + b, cur, env) == ExecAll(ExecAll(p, a, cur, env), b, cur, env)
  {
    if b == [] {
      assert a + b == a;
    } else {
      var b' := b[..|b| - 1];
      assert (a + b)[..|a + b| - 1] == a + b';
      ExecAllSplit(p, a, b', cur, env);
    }
  }

  lemma {:induction false} SayAllFits(wb: Fifo, msgs: seq<Str>)
    requires |wb.written| <= wb.limit && |Flatten(msgs)| <= wb.Room()
    ensures SayAll(wb, msgs) == wb.Fill(Flatten(msgs))
  {
    if msgs != [] {
      SayAllFits(wb, msgs[..|msgs| - 1]);
    }
  }
}
