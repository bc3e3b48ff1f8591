/** The answers of the monitoring protocol: monitor.c writes them, clientresponse.c reads them. */
module MonitorResponse {
  import opened Bytes
  import opened Buffers
  import M = Monitor

  /** What `data` points to: a 32-bit number (`is_number`), nothing, or octets. */
  datatype Payload = Number(n: nat) | Nothing | Raw(bs: Str)

  predicate Usable(data: Payload, dlen: nat) {
    && dlen < 0x1_0000
    && (data.Number? ==> data.n < 0x1_0000_0000)
    && (data.Raw? ==> dlen <= |data.bs|)
  }

  function BigEndian16(n: nat): Str
    requires n < 0x1_0000
  {
    [(n / 0x100) as byte, (n % 0x100) as byte]
  }

  function BigEndian32(n: nat): Str
    requires n < 0x1_0000_0000
  {
    BigEndian16(n / 0x1_0000) + BigEndian16(n % 0x1_0000)
  }

  /** ntohs and ntohl on octets as received. */
  function Value(s: Str): nat {
    if s == [] then 0 else 0x100 * Value(s[..|s| - 1]) + s[|s| - 1] as nat
  }

  lemma Decode16(n: nat)
    requires n < 0x1_0000
    ensures Value(BigEndian16(n)) == n
  {
    var s := BigEndian16(n);
    assert s[..1] == [s[0]] && [s[0]][..0] == [];
    assert Value([s[0]]) == s[0] as nat;
  }

  lemma Decode32(n: nat)
    requires n < 0x1_0000_0000
    ensures Value(BigEndian32(n)) == n
  {
    var hi, lo := BigEndian16(n / 0x1_0000), BigEndian16(n % 0x1_0000);
    Decode16(n / 0x1_0000);
    Decode16(n % 0x1_0000);
    var s := hi + lo;
    assert s[..3] == hi + [lo[0]] && (hi + [lo[0]])[..2] == hi;
    assert lo[..1] == [lo[0]] && [lo[0]][..0] == [];
    assert Value(lo) == 0x100 * Value([lo[0]]) + lo[1] as nat && Value([lo[0]]) == lo[0] as nat;
  }

  /** The octets a response consists of when there is room for all of them. */
  function Response(status: byte, dlen: nat, data: Payload): Str
    requires Usable(data, dlen)
  {
    [status] + BigEndian16(dlen) +
    match data
    case Number(n) => BigEndian32(n)
    case Nothing => [NUL]
    case Raw(bs) => bs[..dlen]
  }

  method WriteAll(b: Buffer, bs: Str)
    requires b.Valid()
    modifies b`write, b.data
    ensures b.Valid() && b.View() == old(b.View()).Push(bs)
  {
    ghost var v := b.View();
    assert bs[..0] == [] && v.Push([]) == v;
    for i := 0 to |bs|
      invariant b.Valid() && b.View() == v.Push(bs[..i])
    {
      PushTwice(v, bs[..i], [bs[i]]);
      assert bs[..i + 1] == bs[..i] + [bs[i]];
      b.Write(bs[i]);
    }
    assert bs[..|bs|] == bs;
  }

  method ResponseHandler(b: Buffer, status: byte, dlen: nat, data: Payload) returns (ret: int)
    requires b.Valid() && Usable(data, dlen)
    modifies b`write, b.data
    ensures b.Valid()
    ensures old(b.View()).Room() < dlen + 3 ==> ret == -1 && b.View() == old(b.View())
    ensures old(b.View()).Room() >= dlen + 3 ==> ret == dlen + 3 && b.View() == old(b.View()).Push(Response(status, dlen, data))
  {
    var at, n := b.WritePtr();
    if n < dlen + 3 {
      return -1;
    }
    ghost var v := b.View();
    b.Write(status);
    // the two octets of htons(dlen)
    b.Write((dlen / 0x100) as byte);
    b.Write((dlen % 0x100) as byte);
    PushTwice(v, [status], [(dlen / 0x100) as byte]);
    PushTwice(v, [status] + [(dlen / 0x100) as byte], [(dlen % 0x100) as byte]);
    assert [status] + [(dlen / 0x100) as byte] + [(dlen % 0x100) as byte] == [status] + BigEndian16(dlen);
    match data {
      case Number(number) =>
        PushTwice(v, [status] + BigEndian16(dlen), BigEndian32(number));
        WriteAll(b, BigEndian32(number));
      case Nothing =>
        PushTwice(v, [status] + BigEndian16(dlen), [NUL]);
        b.Write(NUL);
      case Raw(bs) =>
        PushTwice(v, [status] + BigEndian16(dlen), bs[..dlen]);
        WriteAll(b, bs[..dlen]);
    }
    ret := dlen + 3;
  }

  /** The value returned is what is appended exactly when the announced length fits the payload: 4 for a number, 1 for
      none, any for octets; then nothing is lost and the octets read back as written. */
  lemma ReturnCountsOctets(v: Fifo, status: byte, dlen: nat, data: Payload)
    requires v.Ok() && Usable(data, dlen) && v.Room() >= dlen + 3
    ensures var s, fits := Response(status, dlen, data), (data.Number? ==> dlen == 4) && (data.Nothing? ==> dlen == 1);
      && (|s| == dlen + 3 <==> fits)
      && (fits ==> v.Push(s).Unread() == v.Unread() + s && Value(s[1..3]) == dlen)
      && (fits && data.Number? ==> Value(s[3..7]) == data.n)
      && (fits && data.Raw? ==> s[3..] == data.bs[..dlen])
  {
    var s := Response(status, dlen, data);
    Decode16(dlen);
    assert s[1..3] == BigEndian16(dlen);
    if (data.Number? ==> dlen == 4) && (data.Nothing? ==> dlen == 1) {
      assert s[..|s|] == s;
    }
    if data.Number? {
      Decode32(data.n);
      assert s[3..7] == BigEndian32(data.n);
    }
  }

  /** The status octet for each parser verdict. */
  function StatusOf(st: M.State): byte {
    match st
    case UnsupportedVersion => 1
    case NoSuchMethod => 2
    case NoSuchTarget => 3
    case InvalidData => 4
    case InvalidToken => 5
    case _ => 6
  }

  lemma PushFits(v: Fifo, bs: Str)
    requires v.Ok() && |bs| <= v.Room()
    ensures v.Push(bs) == v.Fill(bs) && v.Push(bs).Unread() == v.Unread() + bs
  {
    assert bs[..|bs|] == bs;
    FillTwice(v, bs, []);
  }

  method ErrorHandler(p: M.Parser, b: Buffer) returns (ret: int)
    requires b.Valid()
    modifies b`write, b.data
    ensures b.Valid()
    ensures old(b.View()).Room() < 4 ==> ret == -1 && b.View() == old(b.View())
    ensures old(b.View()).Room() >= 4 ==>
              ret == 4 && b.View().Unread() == old(b.View()).Unread() + [StatusOf(p.state), 0, 1, 0]
  {
    var at, n := b.WritePtr();
    if n < 4 {
      return -1;
    }
    ghost var v := b.View();
    var code: byte;
    match p.state {
      case UnsupportedVersion => code := 1;
      case InvalidToken => code := 5;
      case NoSuchMethod => code := 2;
      case NoSuchTarget => code := 3;
      case InvalidData => code := 4;
      case _ => code := 6;
    }
    assert code == StatusOf(p.state);
    WriteAll(b, [code, 0, 1, 0]);
    PushFits(v, [code, 0, 1, 0]);
    ret := 4;
  }

  /** The client tells the parser's errors apart by the status octet alone. */
  lemma StatusTellsError(s: Str, t: Str)
    requires M.IsError(M.StateOf(s)) && M.IsError(M.StateOf(t))
    ensures StatusOf(M.StateOf(s)) == StatusOf(M.StateOf(t)) <==> M.StateOf(s) == M.StateOf(t)
    ensures StatusOf(M.StateOf(s)) in {1, 2, 3, 4}
  {
  }

  /** Section 2.a of the protocol, from the octets of the request: 1 for the version, 2 for the method, 3 for the target, 4 for
      the data; 5 is a refused token and 6 any other error. */
  lemma StatusNamesField(s: Str)
    requires M.IsError(M.StateOf(s))
    ensures s != []
    ensures StatusOf(M.StateOf(s)) ==
            if s[0] != 1 then 1
            else if |s| >= 18 && s[17] > 1 then 2
            else if |s| >= 19 && s[18] > (if s[17] == 0 then 2 else 5) then 3
            else 4
    ensures StatusOf(M.InvalidToken) == 5 && StatusOf(M.UnknownError) == 6
  {
    M.RefusedField(s);
  }

  /** clientresponse.c: the length and the number of a successful GET, decoded from the received octets. */
  method HandleGetOkStatus(buf: array<byte>, combinedLen: array<byte>, numericData: array<byte>) returns (number: nat)
    requires buf.Length >= 7 && combinedLen.Length == 2 && numericData.Length == 4
    requires buf != combinedLen && buf != numericData && combinedLen != numericData
    modifies combinedLen, numericData
    ensures combinedLen[..] == buf[1..3] && numericData[..] == buf[3..7]
    ensures number == Value(buf[3..7])
  {
    combinedLen[0] := buf[1];
    combinedLen[1] := buf[2];
    var k, j := 0, 3;
    while k < 4
      invariant 0 <= k <= 4 && j == k + 3
      invariant numericData[..k] == buf[3..j] && combinedLen[..] == buf[1..3]
    {
      numericData[k] := buf[j];
      k, j := k + 1, j + 1;
    }
    assert numericData[..4] == numericData[..];
    number := Value(numericData[..]);
  }

  /** Server and client together: a counter survives the trip, whatever its 32-bit value. */
  method CounterTrip(b: Buffer, n: nat, buf: array<byte>, combinedLen: array<byte>, numericData: array<byte>) returns (number: nat)
    requires b.Valid() && b.View() == Fifo([], 0, b.limit) && b.limit >= 7 && n < 0x1_0000_0000
    requires buf.Length >= 7 && combinedLen.Length == 2 && numericData.Length == 4
    requires buf != combinedLen && buf != numericData && combinedLen != numericData && b.data !in {buf, combinedLen, numericData}
    modifies b`write, b.data, buf, combinedLen, numericData
    ensures number == n && Value(combinedLen[..]) == 4
  {
    hide Value;
    hide Response;
    ReturnCountsOctets(b.View(), 0, 4, Number(n));
    PushFits(b.View(), Response(0, 4, Number(n)));
    var ret := ResponseHandler(b, 0, 4, Number(n));
    ghost var s := b.View().Unread();
    forall i | 0 <= i < ret {
      buf[i] := b.data[b.read + i];
    }
    assert buf[..7] == s;
    assert buf[1..3] == s[1..3] && buf[3..7] == s[3..7];
    number := HandleGetOkStatus(buf, combinedLen, numericData);
  }
}
