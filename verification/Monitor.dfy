/** monitor.c, the request parser of the monitoring protocol. */
module Monitor {
  import opened Bytes
  import opened Buffers

  datatype State =
    | Version | Token | Method | Target | Dlen | Data
    | Finish
    | UnknownError | UnsupportedVersion | InvalidToken | NoSuchMethod | NoSuchTarget | InvalidData

  predicate HasFinished(st: State) {
    !(st.Version? || st.Token? || st.Method? || st.Target? || st.Dlen? || st.Data?)
  }

  predicate IsError(st: State) {
    HasFinished(st) && st != Finish
  }

  const TOKEN_SIZE: nat := 16

  const GET: byte := 0
  const CONFIG: byte := 1

  const MAILDIR: byte := 0
  const BUF_SIZE: byte := 1
  const ADD_ADMIN: byte := 2
  const REMOVE_ADMIN: byte := 3
  const ADD_POP3: byte := 4
  const REMOVE_POP3: byte := 5

  /** Where the second field of an add request (token or password) starts inside the data union. */
  const SECRET_AT: nat := 5

  /** The size of the data union: its largest member is the path. */
  const UNION_SIZE: nat := 255

  // ---------------------------------------------------------------------------------------------
  // The grammar: what a stream of octets is, told from the whole stream.

  predicate IsAdd(target: byte) {
    target == ADD_ADMIN || target == ADD_POP3
  }

  /** Octet `i` of the data is acceptable for the target. An add request takes one NUL, not in front. */
  predicate Accepts(target: byte, dlen: nat, d: Str, i: nat)
    requires i < |d|
  {
    if IsAdd(target) then IsAlnum(d[i]) || (d[i] == NUL && i > 0 && NUL !in d[..i])
    else if target == MAILDIR then IsAlnum(d[i]) || d[i] == SLASH
    else if target == BUF_SIZE then dlen == 0 || IsDigit(d[i])
    else IsAlnum(d[i])
  }

  predicate AllAccepted(target: byte, dlen: nat, d: Str, k: nat)
    requires k <= |d|
  {
    forall i | 0 <= i < k :: Accepts(target, dlen, d, i)
  }

  /** How many data octets a declared length asks for: even none means one. */
  function Need(dlen: nat): nat {
    if dlen == 0 then 1 else dlen
  }

  function DataState(target: byte, dlen: nat, d: Str): State {
    if !AllAccepted(target, dlen, d, Min(Need(dlen), |d|)) then InvalidData
    else if |d| < Need(dlen) then Data
    else Finish
  }

  predicate KnownTarget(kind: byte, target: byte) {
    if kind == GET then target <= 2 else target <= 5
  }

  function DlenOf(s: Str): nat
    requires |s| >= 21
  {
    0x100 * (s[19] as int) + s[20] as int
  }

  /** Sections 1.a to 1.f of the protocol: the verdict on a stream, the error being that of the first offending field. */
  function StateOf(s: Str): State {
    if |s| == 0 then Version
    else if s[0] != 1 then UnsupportedVersion
    else if |s| < 17 then Token
    else if |s| == 17 then Method
    else if s[17] != GET && s[17] != CONFIG then NoSuchMethod
    else if |s| == 18 then Target
    else if !KnownTarget(s[17], s[18]) then NoSuchTarget
    else if s[17] == GET then Finish
    else if |s| < 21 then Dlen
    else DataState(s[18], DlenOf(s), s[21..])
  }

  /** Finished and error states are absorbing: what follows changes nothing. */
  lemma Absorbing(s: Str, t: Str)
    requires HasFinished(StateOf(s))
    ensures StateOf(s + t) == StateOf(s)
  {
    if |s| >= 21 && StateOf(s) != StateOf(s + t) {
      var d, e := s[21..], (s + t)[21..];
      assert e == d + t;
      var k := Min(Need(DlenOf(s)), |d|);
      assert forall i | 0 <= i < k :: d[..i] == e[..i];
      assert forall i | 0 <= i < k :: Accepts(s[18], DlenOf(s), d, i) == Accepts(s[18], DlenOf(s), e, i);
      assert false;
    }
  }

  /** `s` is a request that the parser finishes on at its last octet and not before. */
  predicate CompletesAt(s: Str) {
    s != [] && StateOf(s) == Finish && !HasFinished(StateOf(s[..|s| - 1]))
  }

  /** A GET is exactly its 19 octets, a CONFIG exactly 21 and its data, at least one octet. */
  lemma CompleteLength(s: Str)
    requires CompletesAt(s)
    ensures s[17] == GET ==> |s| == 19
    ensures s[17] == CONFIG ==> |s| == 21 + Need(DlenOf(s))
  {
    var p := s[..|s| - 1];
    if |p| >= 21 {
      assert DlenOf(p) == DlenOf(s);
    }
  }

  predicate AlnumOnly(d: Str) {
    forall i | 0 <= i < |d| :: IsAlnum(d[i])
  }

  /** A name, a separator at `m` and a secret. */
  predicate IsPair(d: Str, m: nat) {
    0 < m < |d| && d[m] == NUL && AlnumOnly(d[..m]) && AlnumOnly(d[m + 1..])
  }

  lemma AcceptedIsPair(target: byte, d: Str, m: nat)
    requires IsAdd(target) && AllAccepted(target, |d|, d, |d|) && m == FirstNul(d) < |d|
    ensures IsPair(d, m)
  {
    forall i | 0 <= i < |d|
      ensures i != m ==> IsAlnum(d[i])
      ensures i == m ==> 0 < m
    {
      assert Accepts(target, |d|, d, i);
      assert i < m ==> d[i] in d[..m];
      assert i > m ==> d[..i][m] == NUL;
    }
  }

  lemma PairIsAccepted(target: byte, d: Str, m: nat)
    requires IsAdd(target) && IsPair(d, m)
    ensures AllAccepted(target, |d|, d, |d|) && m == FirstNul(d)
  {
    var f := FirstNul(d);
    forall i | 0 <= i < |d|
      ensures i != m ==> IsAlnum(d[i])
    {
      assert i < m ==> d[i] == d[..m][i];
      assert i > m ==> d[i] == d[m + 1..][i - m - 1];
    }
    assert NUL !in d[..m];
    assert NUL !in d[..f];
  }

  /** The data forms an add request may take: a name alone, or a name, a NUL and a secret, all alphanumeric. The
      first form, without separator, is not in the protocol document; the code accepts it. */
  lemma AddForms(target: byte, d: Str)
    requires IsAdd(target) && d != []
    ensures DataState(target, |d|, d) == Finish <==> AlnumOnly(d) || exists m :: IsPair(d, m)
  {
    if DataState(target, |d|, d) == Finish {
      var m := FirstNul(d);
      if m < |d| {
        AcceptedIsPair(target, d, m);
      } else {
        forall i | 0 <= i < |d|
          ensures IsAlnum(d[i])
        {
          assert Accepts(target, |d|, d, i) && d[i] in d[..m];
        }
      }
    }
    forall m | IsPair(d, m)
      ensures DataState(target, |d|, d) == Finish
    {
      PairIsAccepted(target, d, m);
    }
  }

  /** The data a configuration request may carry, by the codes of section 1.d: alphanumeric, for the maildir slashes too,
      for the buffer size digits, and for the two add requests a pair. A declared length of 0 lets the buffer size be any
      octet. */
  ghost predicate DataForm(target: byte, dlen: nat, d: Str) {
    if target == 0 then forall i | 0 <= i < |d| :: IsAlnum(d[i]) || d[i] == 47
    else if target == 1 then dlen == 0 || forall i | 0 <= i < |d| :: 48 <= d[i] <= 57
    else if target == 2 || target == 4 then AlnumOnly(d) || exists m :: IsPair(d, m)
    else forall i | 0 <= i < |d| :: IsAlnum(d[i])
  }

  lemma DataForms(target: byte, dlen: nat, d: Str)
    requires target <= 5 && |d| == (if dlen == 0 then 1 else dlen)
    ensures DataState(target, dlen, d) == Finish <==> DataForm(target, dlen, d)
  {
    if target == 2 || target == 4 {
      AddForms(target, d);
      assert forall i | 0 <= i < |d| :: Accepts(target, dlen, d, i) <==> Accepts(target, |d|, d, i);
    } else {
      OtherForms(target, dlen, d);
    }
  }

  lemma OtherForms(target: byte, dlen: nat, d: Str)
    requires target <= 5 && target != 2 && target != 4
    ensures AllAccepted(target, dlen, d, |d|) <==> DataForm(target, dlen, d)
  {
    if AllAccepted(target, dlen, d, |d|) {
      forall i | 0 <= i < |d|
        ensures if target == 0 then IsAlnum(d[i]) || d[i] == 47
                else if target == 1 then dlen == 0 || 48 <= d[i] <= 57
                else IsAlnum(d[i])
      {
        assert Accepts(target, dlen, d, i);
      }
    }
  }

  /** The octets at which the parser finishes are exactly the requests of section 1: version 1, any token of 16 octets, GET of
      one of three counters, or a configuration of one of six kinds with as many octets of data as declared, in its form. */
  lemma RequestExactly(s: Str)
    ensures CompletesAt(s) <==>
            && |s| >= 19 && s[0] == 1
            && if s[17] == 0 then s[18] <= 2 && |s| == 19
               else
                 && s[17] == 1 && s[18] <= 5 && |s| >= 22
                 && var dlen := 256 * (s[19] as int) + s[20] as int;
                    |s| - 21 == (if dlen == 0 then 1 else dlen) && DataForm(s[18], dlen, s[21..])
  {
    hide DataForm;
    if |s| >= 22 && s[0] == 1 && s[17] == 1 && s[18] <= 5 {
      var p, dlen := s[..|s| - 1], DlenOf(s);
      assert DlenOf(p) == dlen && |p[21..]| == |s| - 22 && p[17] == s[17] && p[18] == s[18] && p[0] == s[0];
      if |s| - 21 == Need(dlen) {
        DataForms(s[18], dlen, s[21..]);
        if CompletesAt(s) || DataForm(s[18], dlen, s[21..]) {
          PrefixAccepted(s[18], dlen, s[21..], |p| - 21);
          assert p[21..] == s[21..][..|p| - 21];
        }
      } else {
        hide DataState;
        if CompletesAt(s) {
          CompleteLength(s);
        }
      }
    } else if CompletesAt(s) {
      CompleteLength(s);
    }
  }

  lemma PrefixAccepted(target: byte, dlen: nat, d: Str, k: nat)
    requires k < |d| == Need(dlen) && DataState(target, dlen, d) == Finish
    ensures DataState(target, dlen, d[..k]) == Data
  {
    var e := d[..k];
    forall i | 0 <= i < k
      ensures Accepts(target, dlen, e, i)
    {
      assert Accepts(target, dlen, d, i) && e[..i] == d[..i];
    }
  }

  /** Digits go with every kind of data. */
  lemma DigitsGoOn(target: byte, dlen: nat, d: Str)
    requires DataState(target, dlen, d) == Data
    ensures DataState(target, dlen, d + seq(Need(dlen) - |d|, i => 48)) == Finish
  {
    var e := d + seq(Need(dlen) - |d|, i => 48);
    forall i | 0 <= i < |e|
      ensures Accepts(target, dlen, e, i)
    {
      if i < |d| {
        assert Accepts(target, dlen, d, i) && e[..i] == d[..i];
      }
    }
  }

  /** How a stream without a verdict can go on to be a request. */
  function GoOn(s: Str): Str {
    if |s| < 17 then (if s == [] then [1] else []) + seq(17 - (if s == [] then 1 else |s|), i => NUL) + [0, 0]
    else if |s| == 17 then [0, 0]
    else if |s| == 18 then [0]
    else if |s| < 21 then
      var lo: Str := if |s| == 19 then [0, 1] else [1];
      lo + seq(DlenOf(s + lo), i => 48)
    else seq(if |s| - 21 < Need(DlenOf(s)) then Need(DlenOf(s)) - (|s| - 21) else 0, i => 48)
  }

  lemma TargetGoesOn(s: Str)
    requires 1 <= |s| < 19 && s[0] == 1 && !IsError(StateOf(s))
    ensures |s| == 18 ==> StateOf(s + [0]) == (if s[17] == GET then Finish else Dlen)
    ensures |s| <= 17 ==> StateOf(s + GoOn(s)) == Finish
  {
  }

  lemma DlenGoesOn(s: Str)
    requires 19 <= |s| < 21 && StateOf(s) == Dlen
    ensures StateOf(s + GoOn(s)) == Finish
  {
    var lo: Str := if |s| == 19 then [0, 1] else [1];
    var t := s + lo;
    LengthRead(s, lo);
    hide StateOf;
    hide DlenOf;
    hide Need;
    DataGoesOn(t);
    var digits := seq(DlenOf(t), i => 48);
    assert s + GoOn(s) == t + digits;
    assert GoOn(t) == digits;
  }

  /** With its length a configuration request is in its data. */
  lemma LengthRead(s: Str, lo: Str)
    requires 19 <= |s| < 21 && StateOf(s) == Dlen && lo == (if |s| == 19 then [0, 1] else [1])
    ensures var t := s + lo;
      |t| == 21 && StateOf(t) == Data && DlenOf(t) == Need(DlenOf(t)) > 0
  {
    var t := s + lo;
    assert t[0] == s[0] && t[17] == s[17] && t[18] == s[18] && t[20] == 1 && t[21..] == [];
  }

  lemma DataGoesOn(s: Str)
    requires StateOf(s) == Data
    ensures StateOf(s + GoOn(s)) == Finish
  {
    DigitsGoOn(s[18], DlenOf(s), s[21..]);
    assert (s + GoOn(s))[21..] == s[21..] + seq(Need(DlenOf(s)) - |s[21..]|, i => 48);
  }

  /** A stream is refused exactly when no request begins with it: at the first octet no request can have there. */
  lemma RefusedExactly(s: Str)
    ensures IsError(StateOf(s)) <==> forall t: Str :: StateOf(s + t) != Finish
  {
    if IsError(StateOf(s)) {
      forall t: Str
        ensures StateOf(s + t) != Finish
      {
        Absorbing(s, t);
      }
    } else {
      var t := Completion(s);
      assert StateOf(s + t) == Finish;
    }
  }

  lemma Completion(s: Str) returns (t: Str)
    requires !IsError(StateOf(s))
    ensures StateOf(s + t) == Finish
  {
    t := GoOn(s);
    match StateOf(s) {
      case Finish =>
        t := [];
        assert s + t == s;
      case Data => DataGoesOn(s);
      case Dlen => DlenGoesOn(s);
      case Target =>
        TargetGoesOn(s);
        if s[17] != GET {
          DlenGoesOn(s + [0]);
          t := [0] + GoOn(s + [0]);
          assert s + t == s + [0] + GoOn(s + [0]);
        }
      case Version =>
      case _ => TargetGoesOn(s);
    }
  }

  /** Which field is refused: the first that is wrong, in the order of the stream. */
  lemma RefusedField(s: Str)
    ensures StateOf(s) == UnsupportedVersion <==> s != [] && s[0] != 1
    ensures StateOf(s) == NoSuchMethod <==> |s| >= 18 && s[0] == 1 && s[17] > 1
    ensures StateOf(s) == NoSuchTarget <==>
            |s| >= 19 && s[0] == 1 && ((s[17] == 0 && s[18] > 2) || (s[17] == 1 && s[18] > 5))
    ensures StateOf(s) == InvalidData ==> |s| >= 22 && s[0] == 1 && s[17] == 1 && s[18] <= 5
    ensures IsError(StateOf(s)) ==> StateOf(s) in {UnsupportedVersion, NoSuchMethod, NoSuchTarget, InvalidData}
  {
  }

  // ---------------------------------------------------------------------------------------------
  // The fields: what a finished parser holds.

  /** The position of the first NUL, or the length. */
  function FirstNul(d: Str): (m: nat)
    ensures m <= |d| && NUL !in d[..m] && (m < |d| ==> d[m] == NUL)
  {
    if d == [] then 0
    else
      var m := FirstNul(d[..|d| - 1]);
      if m < |d| - 1 then m else if d[m] == NUL then m else m + 1
  }

  lemma FirstNulStep(d: Str, c: byte)
    ensures FirstNul(d + [c]) == if FirstNul(d) == |d| && c != NUL then |d| + 1 else FirstNul(d)
  {
    assert (d + [c])[..|d|] == d;
  }

  /** Octet `x` of the data union once the data `d` were stored, the union being all zeros before. In an add request
      everything behind the separator goes to the second field. */
  function UnionAt(target: byte, d: Str, x: nat): byte {
    var m := FirstNul(d);
    if IsAdd(target) && SECRET_AT <= x < SECRET_AT + |d| - m - 1 then d[m + 1 + (x - SECRET_AT)]
    else if x < |d| && (IsAdd(target) ==> x <= m) then d[x]
    else NUL
  }

  function UnionOf(target: byte, d: Str): (u: Str)
    ensures |u| == UNION_SIZE
  {
    seq(UNION_SIZE, x requires 0 <= x < UNION_SIZE => UnionAt(target, d, x))
  }

  /** The part of the data that is stored. An octet that BUF_SIZE lets pass at declared length 0 is not. */
  function StoredData(target: byte, dlen: nat, d: Str): Str {
    var k := Min(Need(dlen), |d|);
    if target == BUF_SIZE && k > 0 && !IsDigit(d[0]) then [] else d[..k]
  }

  /** Where the next octet of the data goes. */
  function StoreAt(target: byte, d: Str): nat {
    if IsAdd(target) && NUL in d then SECRET_AT + |d| - FirstNul(d) - 1 else |d|
  }

  lemma UnionStep(target: byte, d: Str, c: byte)
    requires StoreAt(target, d) < UNION_SIZE
    requires IsAdd(target) ==> c != NUL || NUL !in d
    ensures UnionOf(target, d + [c]) == UnionOf(target, d)[StoreAt(target, d) := c]
  {
    FirstNulStep(d, c);
    var m := FirstNul(d);
    assert NUL in d <==> m < |d|;
    var u, v := UnionOf(target, d), UnionOf(target, d + [c]);
    forall x | 0 <= x < UNION_SIZE
      ensures v[x] == if x == StoreAt(target, d) then c else u[x]
    {
    }
  }

  /** The memory after any request other than an add: the data from the start and a terminator behind. */
  lemma FieldInMemory(target: byte, dlen: nat, d: Str)
    requires !IsAdd(target) && dlen > 0 && |d| == dlen <= Capacity(target) && DataForm(target, dlen, d) && target <= 5
    ensures var u := UnionOf(target, StoredData(target, dlen, d));
      u[..dlen] == d && forall x | dlen <= x < UNION_SIZE :: u[x] == NUL
  {
    assert d[..dlen] == d;
  }

  function TokenOf(s: Str): (t: Str)
    ensures |t| == TOKEN_SIZE
  {
    seq(TOKEN_SIZE, i requires 0 <= i < TOKEN_SIZE => if 1 + i < |s| then s[1 + i] else NUL)
  }

  /** How long the data of a target may be without leaving the union, terminator included. */
  function Capacity(target: byte): nat {
    if IsAdd(target) then UNION_SIZE - SECRET_AT - 1 else UNION_SIZE - 1
  }

  /** The stream is a configuration request up to its declared length. */
  predicate DeclaresData(s: Str) {
    |s| >= 21 && s[0] == 1 && s[17] == CONFIG && KnownTarget(CONFIG, s[18])
  }

  /** The data a stream declares stays within the memory the parser has for it. */
  predicate InCapacity(s: Str) {
    DeclaresData(s) ==> Need(DlenOf(s)) <= Capacity(s[18])
  }

  /** Whether octet `c` may follow the accepted data `d`. */
  predicate AcceptsNext(target: byte, dlen: nat, d: Str, c: byte) {
    if IsAdd(target) then IsAlnum(c) || (c == NUL && d != [] && NUL !in d)
    else if target == MAILDIR then IsAlnum(c) || c == SLASH
    else if target == BUF_SIZE then dlen == 0 || IsDigit(c)
    else IsAlnum(c)
  }

  lemma AcceptedStep(target: byte, dlen: nat, d: Str, c: byte)
    requires AllAccepted(target, dlen, d, |d|)
    ensures AllAccepted(target, dlen, d + [c], |d| + 1) <==> AcceptsNext(target, dlen, d, c)
  {
    var e := d + [c];
    assert forall i | 0 <= i <= |d| :: e[..i] == d[..i];
    assert forall i | 0 <= i < |d| :: Accepts(target, dlen, e, i) == Accepts(target, dlen, d, i);
    assert Accepts(target, dlen, e, |d|) <==> AcceptsNext(target, dlen, d, c);
  }

  /** One more octet of a stream that is still in its data: the verdict. */
  lemma DataStep(s: Str, c: byte)
    requires StateOf(s) == Data
    ensures |s| >= 21 && DlenOf(s + [c]) == DlenOf(s) && (s + [c])[21..] == s[21..] + [c]
    ensures TokenOf(s + [c]) == TokenOf(s)
    ensures |s[21..]| < Need(DlenOf(s)) && DeclaresData(s) && AllAccepted(s[18], DlenOf(s), s[21..], |s| - 21)
    ensures StateOf(s + [c]) ==
            if !AcceptsNext(s[18], DlenOf(s), s[21..], c) then InvalidData
            else if |s| - 20 < Need(DlenOf(s)) then Data
            else Finish
  {
    AcceptedStep(s[18], DlenOf(s), s[21..], c);
    assert (s + [c])[21..] == s[21..] + [c];
  }

  /** One more octet of the data: what is stored and where. */
  lemma StoreStep(target: byte, dlen: nat, d: Str, c: byte)
    requires |d| < Need(dlen) <= Capacity(target)
    requires AllAccepted(target, dlen, d, |d|) && AcceptsNext(target, dlen, d, c)
    ensures StoreAt(target, d) < UNION_SIZE && StoredData(target, dlen, d) == d
    ensures target == BUF_SIZE && !IsDigit(c) ==> StoredData(target, dlen, d + [c]) == []
    ensures target != BUF_SIZE || IsDigit(c) ==>
              && StoredData(target, dlen, d + [c]) == d + [c]
              && UnionOf(target, d + [c]) == UnionOf(target, d)[StoreAt(target, d) := c]
  {
    FirstNulStep(d, c);
    if target == BUF_SIZE && d != [] {
      assert Accepts(target, dlen, d, 0);
    }
    if target != BUF_SIZE || IsDigit(c) {
      UnionStep(target, d, c);
    }
  }

  /** None of the first `k` octets of `u` decides the stream that `s` begins. */
  ghost predicate Undecided(s: Str, u: Str, k: nat)
    requires k <= |u|
  {
    forall j | 0 < j <= k :: !HasFinished(StateOf(s + u[..j]))
  }

  lemma UndecidedStep(s: Str, u: Str, k: nat)
    requires k < |u| && Undecided(s, u, k) && !HasFinished(StateOf(s + u[..k + 1]))
    ensures Undecided(s, u, k + 1)
  {
  }

  class Parser {
    var state: State
    var len: nat
    var read: nat
    var finishUser: nat
    const token: array<byte>
    var reqType: byte
    var target: byte
    var dlen: nat
    const data: array<byte>
    /** Statics of monitor.c. */
    const combinedLen: array<byte>
    var usernameLen: nat
    /** Everything fed so far. */
    ghost var seen: Str

    ghost predicate Shape() {
      && token.Length == TOKEN_SIZE && data.Length == UNION_SIZE && combinedLen.Length == 2
      && token != data && token != combinedLen && data != combinedLen
    }

    /** The fields are right for the stream `s`, on which the verdict is `st`. */
    ghost predicate FieldsFor(s: Str, st: State)
      requires Shape()
      reads `len, `read, `finishUser, `reqType, `target, `dlen, `usernameLen, token, data, combinedLen
    {
      && (st.Token? ==> read == |s| - 1)
      && (!IsError(st) ==> token[..] == TokenOf(s))
      && (!IsError(st) && |s| > 17 ==> reqType == s[17])
      && (!IsError(st) && |s| > 18 ==> target == s[18])
      && (st.Dlen? ==> len == 2 && read == |s| - 19 && (|s| > 19 ==> combinedLen[0] == s[19]))
      && (!HasFinished(st) && !st.Data? ==> finishUser == 0 && data[..] == seq(UNION_SIZE, i => NUL))
      && (st.Data? ==> |s| >= 21 && len == DlenOf(s) && read == |s| - 21 && DataProgress(s[21..]))
      && (st.Finish? ==> finishUser == 0)
      && (!IsError(st) && |s| >= 21 && s[17] == CONFIG ==>
            dlen == DlenOf(s) && data[..] == UnionOf(s[18], StoredData(s[18], dlen, s[21..])))
    }

    ghost predicate DataProgress(d: Str)
      reads `finishUser, `target, `usernameLen
    {
      && finishUser == (if IsAdd(target) && NUL in d then 1 else 0)
      && (finishUser == 1 ==> usernameLen == FirstNul(d) + 1)
    }

    ghost predicate Valid()
      reads this, token, data, combinedLen
    {
      Shape() && InCapacity(seen) && state == StateOf(seen) && FieldsFor(seen, state)
    }

    /** monitor_init_parser over freshly zeroed memory. */
    constructor ()
      ensures Valid() && seen == [] && fresh(token) && fresh(data) && fresh(combinedLen)
    {
      state := Version;
      len, read, finishUser := 0, 0, 0;
      token := new byte[TOKEN_SIZE](i => NUL);
      reqType, target, dlen := 0, 0, 0;
      data := new byte[UNION_SIZE](i => NUL);
      combinedLen := new byte[2](i => NUL);
      usernameLen := 0;
      seen := [];
      new;
      assert token[..] == TokenOf([]);
      assert data[..] == seq(UNION_SIZE, i => NUL);
    }

    method ParseVersion(c: byte) returns (ret: State)
      requires Valid() && state == Version
      modifies this`read, this`len
      ensures ret == StateOf(seen + [c]) && FieldsFor(seen + [c], ret)
    {
      if c == 1 {
        read := 0;
        len := TOKEN_SIZE;
        ret := Token;
        assert TokenOf(seen + [c]) == TokenOf(seen);
      } else {
        ret := UnsupportedVersion;
      }
    }

    method ParseToken(c: byte) returns (ret: State)
      requires Valid() && state == Token
      modifies this`read, token
      ensures ret == StateOf(seen + [c]) && FieldsFor(seen + [c], ret)
    {
      token[read] := c;
      read := read + 1;
      ret := if read == TOKEN_SIZE then Method else Token;
      assert token[..] == TokenOf(seen)[read - 1 := c] == TokenOf(seen + [c]);
    }

    method ParseType(c: byte) returns (ret: State)
      requires Valid() && state == Method
      modifies this`reqType
      ensures ret == StateOf(seen + [c]) && FieldsFor(seen + [c], ret)
    {
      reqType := c;
      if reqType == GET || reqType == CONFIG {
        ret := Target;
      } else {
        ret := NoSuchMethod;
      }
      assert TokenOf(seen + [c]) == TokenOf(seen);
    }

    method ParseTarget(c: byte) returns (ret: State)
      requires Valid() && state == Target
      modifies this`target, this`read, this`len
      ensures ret == StateOf(seen + [c]) && FieldsFor(seen + [c], ret)
    {
      assert TokenOf(seen + [c]) == TokenOf(seen);
      if reqType == GET {
        if c == 0 || c == 1 || c == 2 {
          target := c;
          ret := Finish;
        } else {
          ret := NoSuchTarget;
        }
      } else {
        if c == MAILDIR || c == BUF_SIZE || c == ADD_ADMIN || c == REMOVE_ADMIN || c == ADD_POP3 || c == REMOVE_POP3 {
          target := c;
          read := 0;
          len := 2;
          ret := Dlen;
        } else {
          ret := NoSuchTarget;
        }
      }
    }

    method ParseDlen(c: byte) returns (ret: State)
      requires Valid() && state == Dlen && InCapacity(seen + [c])
      modifies this`read, this`len, this`dlen, combinedLen
      ensures ret == StateOf(seen + [c]) && FieldsFor(seen + [c], ret)
    {
      assert TokenOf(seen + [c]) == TokenOf(seen);
      combinedLen[read] := c;
      read := read + 1;
      ret := Dlen;
      if read >= len {
        // ntohs of the two octets as they lie in memory
        dlen := 0x100 * (combinedLen[0] as int) + combinedLen[1] as int;
        read, len := 0, dlen;
        ret := Data;
        assert (seen + [c])[21..] == [];
        assert data[..] == UnionOf(target, StoredData(target, dlen, []));
      }
    }

    /** An octet of an add request whose data so far are `d`: the separator switches to the second field. */
    method StorePair(c: byte, ghost d: Str) returns (ok: bool)
      requires Shape() && IsAdd(target) && read == |d| && |d| < Capacity(target)
      requires data[..] == UnionOf(target, d) && DataProgress(d)
      modifies this`read, this`finishUser, this`usernameLen, data
      ensures ok <==> AcceptsNext(target, dlen, d, c)
      ensures ok ==> read == old(read) + 1 && data[..] == UnionOf(target, d + [c]) && DataProgress(d + [c])
    {
      ghost var at := StoreAt(target, d);
      FirstNulStep(d, c);
      if AcceptsNext(target, dlen, d, c) {
        UnionStep(target, d, c);
      }
      if read == 0 && c == NUL {
        return false;
      }
      ok := true;
      if IsAlnum(c) {
        if finishUser == 0 {
          data[read] := c;
        } else {
          data[SECRET_AT + read - usernameLen] := c;
        }
        read := read + 1;
      } else if c == NUL && finishUser == 0 {
        data[read] := c;
        read := read + 1;
        finishUser := 1;
        usernameLen := read;
      } else {
        ok := false;
      }
      assert ok ==> data[..] == old(data[..])[at := c];
    }

    /** The terminator behind the second field changes nothing: that octet is still 0. */
    method ClosePair(ghost d: Str)
      requires Shape() && IsAdd(target) && read == |d| <= Capacity(target) && data[..] == UnionOf(target, d)
      modifies this`finishUser, data
      ensures finishUser == 0 && data[..] == UnionOf(target, d)
    {
      assert UnionOf(target, d)[SECRET_AT + read] == NUL;
      data[SECRET_AT + read] := NUL;
      assert data[..] == UnionOf(target, d);
      finishUser := 0;
    }

    /** The body of an add request. */
    method ParsePair(c: byte) returns (ret: State)
      requires Valid() && state == Data && IsAdd(target)
      modifies this`read, this`finishUser, this`usernameLen, data
      ensures ret == StateOf(seen + [c]) && FieldsFor(seen + [c], ret)
    {
      hide StateOf;
      hide AllAccepted;
      hide AcceptsNext;
      hide UnionOf;
      ghost var d := seen[21..];
      DataStep(seen, c);
      assert StoredData(target, dlen, d) == d;
      if AcceptsNext(target, dlen, d, c) {
        StoreStep(target, dlen, d, c);
      }
      var ok := StorePair(c, d);
      if !ok {
        return InvalidData;
      }
      ret := Data;
      if read >= len {
        ClosePair(d + [c]);
        ret := Finish;
      }
    }

    /** The body of every other configuration request. */
    method ParseField(c: byte) returns (ret: State)
      requires Valid() && state == Data && !IsAdd(target)
      modifies this`read, data
      ensures ret == StateOf(seen + [c]) && FieldsFor(seen + [c], ret)
    {
      ghost var d := seen[21..];
      DataStep(seen, c);
      if AcceptsNext(target, dlen, d, c) {
        StoreStep(target, dlen, d, c);
      }
      var ok := if target == MAILDIR then IsAlnum(c) || c == SLASH else if target == BUF_SIZE then IsDigit(c) else IsAlnum(c);
      if ok {
        data[read] := c;
        read := read + 1;
        ret := Data;
      } else if target == BUF_SIZE {
        // no break here: the length test below still runs
        ret := InvalidData;
      } else {
        return InvalidData;
      }
      if read >= len {
        data[read] := NUL;
        ret := Finish;
      }
    }

    /** A final verdict stands. */
    method Stay(c: byte) returns (ret: State)
      requires Valid() && HasFinished(state)
      ensures ret == StateOf(seen + [c]) && FieldsFor(seen + [c], ret)
    {
      FinishedStep(seen, c);
      hide StateOf;
      hide TokenOf;
      hide UnionOf;
      hide StoredData;
      hide DlenOf;
      ret := state;
    }

    method Feed(c: byte) returns (ret: State)
      requires Valid() && InCapacity(seen + [c])
      modifies this, token, data, combinedLen
      ensures Valid() && seen == old(seen) + [c] && ret == state
    {
      hide StateOf;
      hide InCapacity;
      hide FieldsFor;
      match state {
        case Version => ret := ParseVersion(c);
        case Token => ret := ParseToken(c);
        case Method => ret := ParseType(c);
        case Target => ret := ParseTarget(c);
        case Dlen => ret := ParseDlen(c);
        case Data =>
          if IsAdd(target) {
            ret := ParsePair(c);
          } else {
            ret := ParseField(c);
          }
        case _ => ret := Stay(c);
      }
      state := ret;
      seen := seen + [c];
    }

    /** Feeds what `b` holds until the verdict is final; `k` is how many octets that took. */
    method Consume(b: Buffer) returns (st: State, ghost k: nat)
      requires Valid() && b.Valid() && b.data !in {token, data, combinedLen}
      requires InCapacity(seen + b.View().Unread())
      modifies this, token, data, combinedLen, b, b.data
      ensures Valid() && b.Valid() && st == state
      ensures k <= |old(b.View().Unread())| && seen == old(seen) + old(b.View().Unread())[..k]
      ensures b.View() == if k == 0 then old(b.View()) else old(b.View()).Take(k)
      ensures k < |old(b.View().Unread())| ==> HasFinished(st)
      ensures k > 0 ==> Undecided(old(seen), old(b.View().Unread()), k - 1)
    {
      hide StateOf;
      hide InCapacity;
      ghost var s, v := seen, b.View();
      ghost var u := v.Unread();
      st := state;
      k := 0;
      while b.CanRead()
        invariant Valid() && b.Valid() && st == state
        invariant 0 <= k <= |u| && b.View() == if k == 0 then v else v.Take(k)
        invariant seen == s + u[..k]
        invariant Undecided(s, u, k)
        decreases |u| - k
      {
        NextOctet(s, u, v, k);
        ghost var next := s + u[..k + 1];
        var c := b.Read();
        assert c == u[k];
        st := Feed(c);
        assert seen == next;
        if HasFinished(st) {
          k := k + 1;
          break;
        }
        UndecidedStep(s, u, k);
        k := k + 1;
      }
    }
  }

  /** The octet a buffer gives after `k` were consumed, and where it takes the stream. */
  lemma NextOctet(s: Str, u: Str, v: Fifo, k: nat)
    requires v.Ok() && u == v.Unread() && k < |u| && InCapacity(s + u)
    ensures s + u[..k + 1] == s + u[..k] + [u[k]] && InCapacity(s + u[..k] + [u[k]])
    ensures var w := if k == 0 then v else v.Take(k);
      w.Ok() && w.Unread() == u[k..] && w.Unread()[0] == u[k] && w.Take(1) == v.Take(k + 1)
  {
    hide InCapacity;
    SliceStep(s, u, k);
    assert s + u == s + u[..k + 1] + u[k + 1..];
    CapacityOfPrefix(s + u[..k + 1], u[k + 1..]);
    TakeTwice(v, k, 1);
  }

  lemma CapacityOfPrefix(s: Str, t: Str)
    requires InCapacity(s + t)
    ensures InCapacity(s)
  {
    if |s| >= 21 {
      assert DlenOf(s + t) == DlenOf(s);
    }
  }

  /** An octet behind a final verdict leaves what the fields stand for unchanged. */
  lemma FinishedStep(s: Str, c: byte)
    requires HasFinished(StateOf(s))
    ensures StateOf(s + [c]) == StateOf(s)
    ensures !IsError(StateOf(s)) ==> |s| > 18 && TokenOf(s + [c]) == TokenOf(s)
    ensures !IsError(StateOf(s)) && s[17] == CONFIG ==>
              && |s| >= 22 && DlenOf(s + [c]) == DlenOf(s)
              && StoredData(s[18], DlenOf(s), (s + [c])[21..]) == StoredData(s[18], DlenOf(s), s[21..])
  {
    Absorbing(s, [c]);
    if StateOf(s) == Finish && s[17] == CONFIG {
      assert (s + [c])[21..] == s[21..] + [c];
      var k := Need(DlenOf(s));
      assert (s[21..] + [c])[..k] == s[21..][..k];
    }
  }

  /** No prefix of `s` shorter than `n` decides it. */
  ghost predicate UndecidedBelow(s: Str, n: nat)
    requires n <= |s|
  {
    forall j | 0 <= j < n :: !HasFinished(StateOf(s[..j]))
  }

  lemma UndecidedJoin(s: Str, u: Str, k: nat, rest: Str)
    requires k <= |u| && UndecidedBelow(s + u + rest, |s|) && !HasFinished(StateOf(s))
    requires k > 0 ==> Undecided(s, u, k - 1)
    ensures (s + u + rest)[..|s| + k] == s + u[..k]
    ensures UndecidedBelow(s + u + rest, |s| + k)
  {
    var w := s + u + rest;
    forall j | 0 <= j < |s| + k
      ensures !HasFinished(StateOf(w[..j]))
    {
      if j > |s| {
        assert w[..j] == s + u[..j - |s|];
      } else if j == |s| {
        assert w[..j] == s;
      }
    }
  }

  /** One round of the server's reading: `chunk` is received into the empty buffer and consumed; `rest` follows later. */
  method ReceiveChunk(p: Parser, b: Buffer, chunk: Str, ghost rest: Str) returns (st: State)
    requires p.Valid() && b.Valid() && b.View() == Fifo([], 0, b.limit) && |chunk| <= b.limit
    requires b.data !in {p.token, p.data, p.combinedLen}
    requires InCapacity(p.seen + chunk + rest)
    requires UndecidedBelow(p.seen + chunk + rest, |p.seen|) && !HasFinished(p.state)
    modifies p, p.token, p.data, p.combinedLen, b, b.data
    ensures p.Valid() && b.Valid() && st == p.state
    ensures var whole := old(p.seen) + chunk + rest;
      p.seen <= whole && UndecidedBelow(whole, |p.seen|)
    ensures HasFinished(st) || (p.seen == old(p.seen) + chunk && b.View() == Fifo([], 0, b.limit))
  {
    CapacityOfPrefix(p.seen + chunk, rest);
    b.CopyIn(chunk);
    b.WriteAdv(|chunk|);
    assert b.View() == Fifo(chunk, 0, b.limit) by {
      assert chunk == [] + chunk;
    }
    ghost var k;
    st, k := p.Consume(b);
    UndecidedJoin(old(p.seen), chunk, k, rest);
    assert k == |chunk| ==> chunk[..k] == chunk;
  }

  /** The server's reading loop: each chunk is received into the buffer and consumed, until the verdict is final.
      However the octets are cut into chunks, the verdict is that on the whole stream, and the octets consumed are the
      shortest prefix that decides it. */
  method Receive(p: Parser, b: Buffer, chunks: seq<Str>) returns (st: State)
    requires p.Valid() && p.seen == [] && b.Valid() && b.View() == Fifo([], 0, b.limit)
    requires b.data !in {p.token, p.data, p.combinedLen}
    requires forall i | 0 <= i < |chunks| :: |chunks[i]| <= b.limit
    requires InCapacity(Flatten(chunks))
    modifies p, p.token, p.data, p.combinedLen, b, b.data
    ensures p.Valid() && st == p.state == StateOf(Flatten(chunks))
    ensures p.seen <= Flatten(chunks) && UndecidedBelow(Flatten(chunks), |p.seen|)
    ensures HasFinished(st) || p.seen == Flatten(chunks)
  {
    ghost var whole := Flatten(chunks);
    assert UndecidedBelow(whole, 0) && Flatten(chunks[..0]) == [];
    hide InCapacity;
    hide UndecidedBelow;
    hide Flatten;
    hide StateOf;
    hide Parser.FieldsFor;
    st := p.state;
    var i := 0;
    while i < |chunks|
      invariant 0 <= i <= |chunks| && p.Valid() && b.Valid() && st == p.state && !HasFinished(st)
      invariant p.seen == Flatten(chunks[..i]) && p.seen <= whole && b.View() == Fifo([], 0, b.limit)
      invariant UndecidedBelow(whole, |p.seen|)
    {
      ghost var rest := Rest(chunks, i);
      assert whole[..|p.seen|] == p.seen;
      st := ReceiveChunk(p, b, chunks[i], rest);
      if HasFinished(st) {
        FinalVerdict(p.seen, whole);
        return;
      }
      i := i + 1;
    }
    assert chunks[..i] == chunks;
  }

  lemma FinalVerdict(seen: Str, whole: Str)
    requires seen <= whole && HasFinished(StateOf(seen))
    ensures StateOf(whole) == StateOf(seen)
  {
    Absorbing(seen, whole[|seen|..]);
    assert seen + whole[|seen|..] == whole;
  }

  ghost function Rest(chunks: seq<Str>, i: nat): (rest: Str)
    requires i < |chunks|
    ensures Flatten(chunks[..i + 1]) == Flatten(chunks[..i]) + chunks[i]
    ensures Flatten(chunks) == Flatten(chunks[..i]) + chunks[i] + rest
  {
    FlattenStep(chunks, i);
    FlattenAppend(chunks[..i + 1], chunks[i + 1..]);
    assert chunks == chunks[..i + 1] + chunks[i + 1..];
    Flatten(chunks[i + 1..])
  }
}
