/** clientrequest.c: the client's side of the monitoring protocol, and its round trip through the server's parser. */
module MonitorClient {
  import opened Bytes
  import opened Buffers
  import M = Monitor

  const PROGRAM_VERSION: byte := 1
  const FIELD_TOKEN_INDEX: nat := 1
  const FIELD_METHOD_INDEX: nat := 17
  const FIELD_TARGET_INDEX: nat := 18
  const FIELD_DLEN_INDEX: nat := 19
  const FIELD_DATA_INDEX: nat := 21

  /** The requests a command line can ask for. */
  datatype Request =
    | Get(what: byte)
    | AddAdmin(user: Str, secret: Str)
    | AddPop3(user: Str, secret: Str)
    | RemoveAdmin(user: Str)
    | RemovePop3(user: Str)
    | Maildir(path: Str)
  {
    predicate IsAdd() {
      AddAdmin? || AddPop3?
    }

    function Method(): byte {
      if Get? then M.GET else M.CONFIG
    }

    function Target(): byte {
      match this
      case Get(what) => what
      case AddAdmin(_, _) => M.ADD_ADMIN
      case AddPop3(_, _) => M.ADD_POP3
      case RemoveAdmin(_) => M.REMOVE_ADMIN
      case RemovePop3(_) => M.REMOVE_POP3
      case Maildir(_) => M.MAILDIR
    }

    function Data(): Str {
      match this
      case Get(_) => [NUL]
      case AddAdmin(user, secret) => user + [NUL] + secret
      case AddPop3(user, secret) => user + [NUL] + secret
      case RemoveAdmin(user) => user
      case RemovePop3(user) => user
      case Maildir(path) => path
    }

    /** The first string of the request, the one the server keeps at the start of its data. */
    function Name(): Str {
      match this
      case Get(_) => []
      case Maildir(path) => path
      case _ => user
    }
  }

  predicate PathOctets(p: Str) {
    forall i | 0 <= i < |p| :: IsAlnum(p[i]) || p[i] == SLASH
  }

  /** The requests the client's argument parser lets through, with the alphabet of the protocol, something to send and
      a path that fits the server. Names may have up to five octets. */
  predicate Sendable(r: Request) {
    match r
    case Get(what) => what <= 2
    case AddAdmin(user, secret) => 1 <= |user| <= 5 && M.AlnumOnly(user) && |secret| == 16 && M.AlnumOnly(secret)
    case AddPop3(user, secret) => 1 <= |user| <= 5 && M.AlnumOnly(user) && |secret| <= 16 && M.AlnumOnly(secret)
    case RemoveAdmin(user) => 1 <= |user| <= 5 && M.AlnumOnly(user)
    case RemovePop3(user) => 1 <= |user| <= 5 && M.AlnumOnly(user)
    case Maildir(path) => 1 <= |path| <= 254 && PathOctets(path)
  }

  /** The octets of a request as the protocol lays them out. */
  function Wire(r: Request, token: Str): Str
    requires |token| == M.TOKEN_SIZE && |r.Data()| < 0x10000
  {
    var n := |r.Data()|;
    [PROGRAM_VERSION] + token + [r.Method(), r.Target(), (n / 0x100) as byte, (n % 0x100) as byte] + r.Data()
  }

  /** The requests by the codes of sections 1.c and 1.d of the protocol, octet by octet. */
  lemma WireIsProtocol(r: Request, token: Str)
    requires |token| == 16 && |r.Data()| < 0x10000
    ensures var s, n := Wire(r, token), |r.Data()|;
      && |s| == 21 + n && s[0] == 1 && s[1..17] == token && 256 * (s[19] as int) + s[20] as int == n
      && match r
         case Get(what) => s[17] == 0 && s[18] == what && s[21..] == [0]
         case Maildir(path) => s[17] == 1 && s[18] == 0 && s[21..] == path
         case AddAdmin(user, secret) => s[17] == 1 && s[18] == 2 && s[21..] == user + [0] + secret
         case RemoveAdmin(user) => s[17] == 1 && s[18] == 3 && s[21..] == user
         case AddPop3(user, secret) => s[17] == 1 && s[18] == 4 && s[21..] == user + [0] + secret
         case RemovePop3(user) => s[17] == 1 && s[18] == 5 && s[21..] == user
  {
    var s := Wire(r, token);
    assert s[1..17] == token;
    assert s[21..] == r.Data();
  }

  method SerializeRequest(r: Request, token: Str, buffer: array<byte>)
    requires |token| == M.TOKEN_SIZE && |r.Data()| < 0x10000
    requires buffer.Length >= FIELD_DATA_INDEX + |r.Data()|
    modifies buffer
    ensures buffer[..FIELD_DATA_INDEX + |r.Data()|] == Wire(r, token)
  {
    buffer[0] := PROGRAM_VERSION;
    forall i | 0 <= i < M.TOKEN_SIZE {
      buffer[FIELD_TOKEN_INDEX + i] := token[i];
    }
    buffer[FIELD_METHOD_INDEX] := r.Method();
    // htons(dlen), octet by octet
    var n := |r.Data()|;
    buffer[FIELD_DLEN_INDEX] := (n / 0x100) as byte;
    buffer[FIELD_DLEN_INDEX + 1] := (n % 0x100) as byte;
    buffer[FIELD_TARGET_INDEX] := r.Target();
    ghost var header := buffer[..FIELD_DATA_INDEX];
    assert header == [PROGRAM_VERSION] + token + [r.Method(), r.Target(), (n / 0x100) as byte, (n % 0x100) as byte];
    if r.Get? {
      buffer[FIELD_DATA_INDEX] := NUL;
    } else {
      SerializeConfigData(r, buffer);
    }
    assert buffer[..FIELD_DATA_INDEX + n] == header + buffer[FIELD_DATA_INDEX..FIELD_DATA_INDEX + n];
  }

  method SerializeConfigData(r: Request, buffer: array<byte>)
    requires !r.Get? && buffer.Length >= FIELD_DATA_INDEX + |r.Data()|
    modifies buffer
    ensures buffer[..FIELD_DATA_INDEX] == old(buffer[..FIELD_DATA_INDEX])
    ensures buffer[FIELD_DATA_INDEX..FIELD_DATA_INDEX + |r.Data()|] == r.Data()
  {
    match r {
      case AddAdmin(user, secret) => SerializePair(user, secret, buffer);
      case AddPop3(user, secret) => SerializePair(user, secret, buffer);
      case RemoveAdmin(user) => forall i | 0 <= i < |user| { buffer[FIELD_DATA_INDEX + i] := user[i]; }
      case RemovePop3(user) => forall i | 0 <= i < |user| { buffer[FIELD_DATA_INDEX + i] := user[i]; }
      case Maildir(path) => forall i | 0 <= i < |path| { buffer[FIELD_DATA_INDEX + i] := path[i]; }
    }
  }

  method SerializePair(user: Str, secret: Str, buffer: array<byte>)
    requires buffer.Length >= FIELD_DATA_INDEX + |user| + 1 + |secret|
    modifies buffer
    ensures buffer[..FIELD_DATA_INDEX] == old(buffer[..FIELD_DATA_INDEX])
    ensures buffer[FIELD_DATA_INDEX..FIELD_DATA_INDEX + |user| + 1 + |secret|] == user + [NUL] + secret
  {
    forall i | 0 <= i < |user| {
      buffer[FIELD_DATA_INDEX + i] := user[i];
    }
    buffer[FIELD_DATA_INDEX + |user|] := NUL;
    forall i | 0 <= i < |secret| {
      buffer[FIELD_DATA_INDEX + |user| + 1 + i] := secret[i];
    }
  }

  // ---------------------------------------------------------------------------------------------
  // The round trip.

  /** The C string that starts at offset `at` of a memory block. */
  function CString(mem: Str, at: nat): Str
    requires at <= |mem|
  {
    mem[at..][..M.FirstNul(mem[at..])]
  }

  lemma CStringIs(mem: Str, at: nat, s: Str)
    requires at + |s| < |mem| && mem[at..at + |s|] == s && NUL !in s
    ensures mem[at + |s|] == NUL <==> CString(mem, at) == s
  {
    var m := M.FirstNul(mem[at..]);
    assert m >= |s| by {
      assert NUL !in mem[at..at + |s|];
    }
    assert mem[at..][..|s|] == s;
  }

  lemma WireFields(r: Request, token: Str)
    requires Sendable(r) && |token| == M.TOKEN_SIZE
    ensures var s := Wire(r, token);
      && |s| == 21 + |r.Data()| && s[0] == 1 && M.TokenOf(s) == token && s[17] == r.Method() && s[18] == r.Target()
      && M.DlenOf(s) == |r.Data()| && s[21..] == r.Data()
  {
    var s := Wire(r, token);
    assert s[1..17] == token;
  }

  /** The data of a request is accepted to its last octet. */
  lemma DataAccepted(r: Request)
    requires Sendable(r) && !r.Get?
    ensures var d := r.Data(); M.AllAccepted(r.Target(), |d|, d, |d|)
  {
    var d := r.Data();
    if r.IsAdd() {
      assert d[..|r.user|] == r.user && d[|r.user| + 1..] == r.secret;
      M.PairIsAccepted(r.Target(), d, |r.user|);
    } else {
      forall i | 0 <= i < |d|
        ensures M.Accepts(r.Target(), |d|, d, i)
      {
      }
    }
  }

  lemma PairOctets(r: Request)
    requires Sendable(r) && r.IsAdd()
    ensures var u, user, secret := M.UnionOf(r.Target(), r.Data()), r.user, r.secret;
      && NUL !in user && NUL !in secret && |user| <= M.SECRET_AT && |secret| < M.UNION_SIZE - M.SECRET_AT
      && u[..|user|] == user && (u[|user|] == NUL <==> |user| <= 4 || secret == [])
      && u[M.SECRET_AT..M.SECRET_AT + |secret|] == secret && u[M.SECRET_AT + |secret|] == NUL
  {
    var d, user, secret := r.Data(), r.user, r.secret;
    DataAccepted(r);
    hide M.AllAccepted;
    assert d[..|user|] == user && d[|user| + 1..] == secret;
    M.PairIsAccepted(r.Target(), d, |user|);
    UnionOfPair(r.Target(), user, secret);
  }

  lemma UnionOfPair(target: byte, user: Str, secret: Str)
    requires M.IsAdd(target) && 1 <= |user| <= M.SECRET_AT && |secret| <= 16
    requires M.FirstNul(user + [NUL] + secret) == |user| && M.AlnumOnly(secret)
    ensures var u := M.UnionOf(target, user + [NUL] + secret);
      && u[..|user|] == user && (u[|user|] == NUL <==> |user| <= 4 || secret == [])
      && u[M.SECRET_AT..M.SECRET_AT + |secret|] == secret && u[M.SECRET_AT + |secret|] == NUL
  {
    var d := user + [NUL] + secret;
    var u := M.UnionOf(target, d);
    forall i | 0 <= i < |secret|
      ensures u[M.SECRET_AT + i] == secret[i]
    {
      assert d[|user| + 1 + i] == secret[i];
    }
    assert u[M.SECRET_AT..M.SECRET_AT + |secret|] == secret;
    forall i | 0 <= i < |user|
      ensures u[i] == user[i]
    {
      assert d[i] == user[i];
    }
    assert u[..|user|] == user;
  }

  /** The server's memory after an add request: the name from the start, the secret from its own offset on. */
  lemma PairInMemory(r: Request)
    requires Sendable(r) && r.IsAdd()
    ensures var u := M.UnionOf(r.Target(), r.Data());
      && CString(u, M.SECRET_AT) == r.secret
      && (CString(u, 0) == r.user <==> |r.user| <= 4 || r.secret == [])
  {
    PairOctets(r);
    hide M.UnionOf;
    var u := M.UnionOf(r.Target(), r.Data());
    CStringIs(u, M.SECRET_AT, r.secret);
    CStringIs(u, 0, r.user);
  }

  lemma NameInMemory(r: Request)
    requires Sendable(r) && !r.Get? && !r.IsAdd()
    ensures CString(M.UnionOf(r.Target(), r.Data()), 0) == r.Name()
  {
    var d := r.Data();
    var u := M.UnionOf(r.Target(), d);
    DataAccepted(r);
    assert NUL !in d by {
      assert forall i | 0 <= i < |d| :: M.Accepts(r.Target(), |d|, d, i);
    }
    assert u[..|d|] == d;
    CStringIs(u, 0, d);
  }

  /** What the server holds after a request, read back as the client wrote it. */
  predicate Understood(r: Request, token: Str, s: Str)
    requires |s| >= 19 && (!r.Get? ==> |s| >= 21)
  {
    && M.TokenOf(s) == token && s[17] == r.Method() && s[18] == r.Target()
    && (!r.Get? ==>
          var u := M.UnionOf(s[18], M.StoredData(s[18], M.DlenOf(s), s[21..]));
          && M.DlenOf(s) == |r.Data()|
          && CString(u, 0) == r.Name()
          && (r.IsAdd() ==> CString(u, M.SECRET_AT) == r.secret))
  }

  /** Nothing shorter than the whole of a configuration request finishes the parser. */
  lemma NoEarlyFinish(r: Request, token: Str, p: Str)
    requires Sendable(r) && !r.Get? && |token| == M.TOKEN_SIZE
    requires p <= Wire(r, token) && M.StateOf(p) == M.Finish
    ensures p == Wire(r, token)
  {
    var s := Wire(r, token);
    WireFields(r, token);
    assert |p| >= 19 && p[17] == s[17] && |p| >= 21;
    assert M.DlenOf(p) == M.DlenOf(s);
    assert p == s[..|p|];
  }

  lemma WireFinishes(r: Request, token: Str)
    requires Sendable(r) && |token| == M.TOKEN_SIZE
    ensures var s := Wire(r, token); M.InCapacity(s) && M.StateOf(s) == M.Finish
  {
    WireFields(r, token);
    if !r.Get? {
      DataAccepted(r);
    }
  }

  /** Every request the client can send is accepted to the end, never before its data is complete, and is understood
      exactly when its name leaves room for a terminator. Five octets, which the client allows, do not when a secret
      follows: the secret then overwrites the terminator. */
  lemma RoundTrip(r: Request, token: Str)
    requires Sendable(r) && |token| == M.TOKEN_SIZE
    ensures var s := Wire(r, token);
      && |s| >= 21 && M.InCapacity(s) && M.StateOf(s) == M.Finish
      && (Understood(r, token, s) <==> (r.IsAdd() ==> |r.user| <= 4 || r.secret == []))
    ensures !r.Get? ==> forall p | p <= Wire(r, token) && M.StateOf(p) == M.Finish :: p == Wire(r, token)
  {
    WireFields(r, token);
    WireFinishes(r, token);
    if !r.Get? {
      UnderstoodWhen(r, token);
      forall p | p <= Wire(r, token) && M.StateOf(p) == M.Finish
        ensures p == Wire(r, token)
      {
        NoEarlyFinish(r, token, p);
      }
    }
  }

  lemma UnderstoodWhen(r: Request, token: Str)
    requires Sendable(r) && !r.Get? && |token| == M.TOKEN_SIZE
    ensures |Wire(r, token)| >= 21
    ensures var s := Wire(r, token);
      var u := M.UnionOf(s[18], M.StoredData(s[18], M.DlenOf(s), s[21..]));
      && (CString(u, 0) == r.Name() <==> (r.IsAdd() ==> |r.user| <= 4 || r.secret == []))
      && (r.IsAdd() ==> CString(u, M.SECRET_AT) == r.secret)
    ensures Understood(r, token, Wire(r, token)) <==> (r.IsAdd() ==> |r.user| <= 4 || r.secret == [])
  {
    WireFields(r, token);
    var d := r.Data();
    assert M.StoredData(r.Target(), |d|, d) == d by {
      assert d[..|d|] == d;
    }
    if r.IsAdd() {
      PairInMemory(r);
    } else {
      NameInMemory(r);
    }
  }

  /** The two sides together: whatever chunks the request arrives in, the server ends holding what the client meant. */
  method Deliver(r: Request, token: Str, chunks: seq<Str>, p: M.Parser, b: Buffer)
    requires Sendable(r) && |token| == M.TOKEN_SIZE && Flatten(chunks) == Wire(r, token)
    requires p.Valid() && p.seen == [] && b.Valid() && b.View() == Fifo([], 0, b.limit)
    requires b.data !in {p.token, p.data, p.combinedLen}
    requires forall i | 0 <= i < |chunks| :: |chunks[i]| <= b.limit
    modifies p, p.token, p.data, p.combinedLen, b, b.data
    ensures p.Valid() && p.state == M.Finish
    ensures p.token[..] == token && p.reqType == r.Method() && p.target == r.Target()
    ensures r.Get? ==> p.seen == Wire(r, token)[..19]
    ensures !r.Get? ==> p.seen == Wire(r, token) && p.dlen == |r.Data()|
    ensures !r.Get? ==> (CString(p.data[..], 0) == r.Name() <==> (r.IsAdd() ==> |r.user| <= 4 || r.secret == []))
    ensures r.IsAdd() ==> CString(p.data[..], M.SECRET_AT) == r.secret
  {
    WireFinishes(r, token);
    hide *;
    var st := M.Receive(p, b, chunks);
    Delivered(r, token, p.seen);
    FieldsHold(r, token, p);
  }

  /** What a parser holds that finished on a request. */
  lemma FieldsHold(r: Request, token: Str, p: M.Parser)
    requires p.Valid() && Taken(r, token, p.seen)
    ensures p.token[..] == token && p.reqType == r.Method() && p.target == r.Target()
    ensures !r.Get? ==> p.dlen == |r.Data()|
    ensures !r.Get? ==> (CString(p.data[..], 0) == r.Name() <==> (r.IsAdd() ==> |r.user| <= 4 || r.secret == []))
    ensures r.IsAdd() ==> CString(p.data[..], M.SECRET_AT) == r.secret
  {
    hide M.StateOf;
    hide M.InCapacity;
    hide M.StoredData;
    hide M.UnionOf;
    hide CString;
  }

  /** The octets taken from a request are enough to understand it, as far as it can be. */
  predicate Taken(r: Request, token: Str, seen: Str) {
    && |seen| >= 19 && M.StateOf(seen) == M.Finish
    && M.TokenOf(seen) == token && seen[17] == r.Method() && seen[18] == r.Target()
    && (!r.Get? ==>
          && |seen| >= 21 && M.DlenOf(seen) == |r.Data()|
          && var u := M.UnionOf(seen[18], M.StoredData(seen[18], M.DlenOf(seen), seen[21..]));
             && (CString(u, 0) == r.Name() <==> (r.IsAdd() ==> |r.user| <= 4 || r.secret == []))
             && (r.IsAdd() ==> CString(u, M.SECRET_AT) == r.secret))
  }

  /** The octets the parser has taken when it finishes on a request. */
  lemma Delivered(r: Request, token: Str, seen: Str)
    requires Sendable(r) && |token| == M.TOKEN_SIZE && seen <= Wire(r, token)
    requires M.UndecidedBelow(Wire(r, token), |seen|) && (M.HasFinished(M.StateOf(seen)) || seen == Wire(r, token))
    ensures Taken(r, token, seen)
    ensures r.Get? ==> seen == Wire(r, token)[..19]
    ensures !r.Get? ==> seen == Wire(r, token)
  {
    if r.Get? {
      TakenGet(r, token, seen);
    } else {
      TakenWhole(r, token, seen);
      UnderstoodWhen(r, token);
      WireFields(r, token);
      hide M.UnionOf;
      hide M.StoredData;
      hide CString;
      hide Wire;
    }
  }

  lemma TakenGet(r: Request, token: Str, seen: Str)
    requires Sendable(r) && r.Get? && |token| == M.TOKEN_SIZE && seen <= Wire(r, token)
    requires M.UndecidedBelow(Wire(r, token), |seen|) && (M.HasFinished(M.StateOf(seen)) || seen == Wire(r, token))
    ensures seen == Wire(r, token)[..19] && M.StateOf(seen) == M.Finish && M.TokenOf(seen) == token
  {
    var s := Wire(r, token);
    WireFields(r, token);
    assert s[..|seen|] == seen;
    assert M.StateOf(s[..19]) == M.Finish;
    assert |seen| >= 19;
  }

  lemma TakenWhole(r: Request, token: Str, seen: Str)
    requires Sendable(r) && !r.Get? && |token| == M.TOKEN_SIZE && seen <= Wire(r, token)
    requires M.HasFinished(M.StateOf(seen)) || seen == Wire(r, token)
    ensures seen == Wire(r, token) && M.StateOf(seen) == M.Finish
  {
    var s := Wire(r, token);
    WireFinishes(r, token);
    hide Wire;
    hide M.StateOf;
    if seen != s {
      M.Absorbing(seen, s[|seen|..]);
      assert seen + s[|seen|..] == s;
      NoEarlyFinish(r, token, seen);
    }
  }
}
