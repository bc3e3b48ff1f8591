/** pop3nio.c, the list of live connections and its two counters. */
module Connections {

  /** An `unsigned` counter. */
  function Unsigned(n: int): (r: nat)
    ensures r < 0x1_0000_0000 && (0 <= n < 0x1_0000_0000 ==> r == n)
  {
    n % 0x1_0000_0000
  }

  lemma Counts(n: nat)
    ensures Unsigned(Unsigned(n) + 1) == Unsigned(n + 1)
    ensures n > 0 ==> Unsigned(Unsigned(n) - 1) == Unsigned(n - 1)
  {
  }

  // ---------------------------------------------------------------------------------------------
  // The list as a value.

  /** A connection of the list: its descriptor, and which of all connections accepted it is. */
  datatype Link = Link(fd: int, nth: nat)

  /** Without the first connection on that descriptor. */
  function Without(l: seq<Link>, fd: int): seq<Link> {
    if l == [] then [] else if l[0].fd == fd then l[1..] else [l[0]] + Without(l[1..], fd)
  }

  /** A close comes with the `done` of its session: the end of a mail was recognised and not sent yet. */
  datatype Op = Accept(fd: int) | Close(fd: int, done: bool)

  /** The open descriptors, and which connection each belongs to. */
  type Descriptors = map<int, nat>

  /** The operating system gives a new connection a descriptor that is not open, and only open ones are closed. */
  predicate Allowed(open: Descriptors, op: Op) {
    op.Accept? <==> op.fd !in open
  }

  /** pop3_close destroys the session only while `done` is not set. */
  function Apply(l: seq<Link>, op: Op, nth: nat): seq<Link> {
    match op
    case Accept(fd) => l + [Link(fd, nth)]
    case Close(fd, done) => if done then l else Without(l, fd)
  }

  datatype Opened = Refused | AreOpen(fds: Descriptors)

  /** The descriptors open after a run, if every operation was allowed when it came. */
  function Open(ops: seq<Op>): Opened {
    if ops == [] then AreOpen(map[])
    else
      var init, op := ops[..|ops| - 1], ops[|ops| - 1];
      var before := Open(init);
      if before.Refused? || !Allowed(before.fds, op) then Refused
      else AreOpen(if op.Accept? then before.fds[op.fd := Accepts(init)] else before.fds - {op.fd})
  }

  function RunOps(ops: seq<Op>): seq<Link> {
    if ops == [] then []
    else
      var init := ops[..|ops| - 1];
      Apply(RunOps(init), ops[|ops| - 1], Accepts(init))
  }

  function Accepts(ops: seq<Op>): nat {
    if ops == [] then 0 else Accepts(ops[..|ops| - 1]) + if ops[|ops| - 1].Accept? then 1 else 0
  }

  /** How many closes came with `done` set. */
  function Left(ops: seq<Op>): nat {
    if ops == [] then 0
    else Left(ops[..|ops| - 1]) + if ops[|ops| - 1].Close? && ops[|ops| - 1].done then 1 else 0
  }

  /** The first connection on that descriptor. */
  function First(l: seq<Link>, fd: int): (r: seq<Link>)
    ensures r != [] ==> |r| == 1 && r[0] in l && r[0].fd == fd
  {
    if l == [] then []
    else if l[0].fd == fd then [l[0]]
    else
      assert l == [l[0]] + l[1..];
      First(l[1..], fd)
  }

  predicate Has(l: seq<Link>, fd: int) {
    exists x :: x in l && x.fd == fd
  }

  lemma {:induction false} FirstExists(l: seq<Link>, fd: int)
    ensures First(l, fd) != [] <==> Has(l, fd)
  {
    if l != [] {
      assert l == [l[0]] + l[1..];
      FirstExists(l[1..], fd);
      assert l[0].fd == fd ==> l[0] in l;
    }
  }

  /** In the order in which they were accepted, which was before `n`. */
  ghost predicate Ordered(l: seq<Link>, n: nat) {
    && (forall i, j | 0 <= i < j < |l| :: l[i].nth < l[j].nth)
    && (forall i | 0 <= i < |l| :: l[i].nth < n)
  }

  /** Removal takes out the first connection on the descriptor and no other. */
  lemma {:induction false} WithoutMeans(l: seq<Link>, fd: int, n: nat)
    requires Ordered(l, n)
    ensures Ordered(Without(l, fd), n)
    ensures forall x :: x in Without(l, fd) <==> x in l && x !in First(l, fd)
    ensures |Without(l, fd)| == |l| - |First(l, fd)|
  {
    if l != [] {
      var rest := l[1..];
      OrderedCons(l[0], rest, n);
      assert l == [l[0]] + rest && l[0] !in rest;
      if l[0].fd != fd {
        WithoutMeans(rest, fd, n);
        var r := Without(rest, fd);
        assert forall x :: x in [l[0]] + r <==> x == l[0] || x in r;
        OrderedCons(l[0], r, n);
      }
    }
  }

  lemma OrderedCons(x: Link, l: seq<Link>, n: nat)
    ensures Ordered([x] + l, n) <==> Ordered(l, n) && x.nth < n && forall y | y in l :: x.nth < y.nth
  {
    var all := [x] + l;
    assert all[0] == x && all[1..] == l;
    if Ordered(all, n) {
      forall y | y in l
        ensures x.nth < y.nth
      {
        var k :| 0 <= k < |l| && l[k] == y;
        assert all[k + 1] == y;
      }
      assert forall i | 0 <= i < |l| :: l[i] == all[i + 1];
    }
    if Ordered(l, n) && x.nth < n && forall y | y in l :: x.nth < y.nth {
      assert forall i | 0 < i < |all| :: all[i] == l[i - 1];
    }
  }

  lemma {:induction false} WithoutOthers(l: seq<Link>, fd: int, other: int)
    requires other != fd
    ensures First(Without(l, fd), other) == First(l, other)
  {
    if l != [] && l[0].fd != fd {
      WithoutOthers(l[1..], fd, other);
      assert Without(l, fd)[1..] == Without(l[1..], fd);
    }
  }

  lemma {:induction false} FirstOfLonger(l: seq<Link>, x: Link, fd: int)
    ensures First(l + [x], fd) == if First(l, fd) == [] && x.fd == fd then [x] else First(l, fd)
  {
    if l != [] {
      assert (l + [x])[1..] == l[1..] + [x];
      FirstOfLonger(l[1..], x, fd);
    }
  }

  /** Every open connection is in the list, which is in the order of acceptance and longer by `left`. */
  ghost predicate Listed(l: seq<Link>, open: Descriptors, n: nat, left: nat) {
    Ordered(l, n) && (forall fd | fd in open :: Link(fd, open[fd]) in l) && |l| == |open| + left
  }

  /** Whatever was closed and how, every open connection is in the list, and the list is longer than they are by the closes
      that came with `done` set. */
  lemma {:induction false} OpenAreListed(ops: seq<Op>)
    requires Open(ops).AreOpen?
    ensures Listed(RunOps(ops), Open(ops).fds, Accepts(ops), Left(ops))
  {
    if ops != [] {
      var init, op := ops[..|ops| - 1], ops[|ops| - 1];
      OpenAreListed(init);
      var l, open := RunOps(init), Open(init).fds;
      if op.Accept? {
        hide Listed;
        AcceptListed(l, open, op.fd, Accepts(init), Left(init));
      } else {
        hide Listed;
        CloseListed(l, open, op, Accepts(init), Left(init));
      }
    }
  }

  lemma AcceptListed(l: seq<Link>, open: Descriptors, fd: int, n: nat, left: nat)
    requires Listed(l, open, n, left) && fd !in open
    ensures Listed(l + [Link(fd, n)], open[fd := n], n + 1, left)
  {
  }

  lemma CloseListed(l: seq<Link>, open: Descriptors, op: Op, n: nat, left: nat)
    requires Listed(l, open, n, left) && op.Close? && op.fd in open
    ensures Listed(Apply(l, op, n), open - {op.fd}, n, left + if op.done then 1 else 0)
  {
    Removed(open, op.fd);
    if !op.done {
      WithoutMeans(l, op.fd, n);
      FirstExists(l, op.fd);
      assert Link(op.fd, open[op.fd]) in l;
      hide First;
      hide Without;
      hide Ordered;
    }
  }

  lemma Removed(open: Descriptors, fd: int)
    requires fd in open
    ensures |open - {fd}| == |open| - 1
  {
    assert open == (open - {fd})[fd := open[fd]];
  }

  /** The connections on one descriptor: before a close of it came with `done` set the list holds the open one and no other;
      from then on the first one in the list is never the open one. */
  ghost predicate Leads(l: seq<Link>, open: Descriptors, fd: int, left: bool) {
    var open := if fd in open then [Link(fd, open[fd])] else [];
    if left then First(l, fd) != [] && First(l, fd) != open
    else First(l, fd) == open && forall x | x in l && x.fd == fd :: x in open
  }

  lemma {:induction false} FirstIsOpen(ops: seq<Op>, fd: int)
    requires Open(ops).AreOpen?
    ensures Leads(RunOps(ops), Open(ops).fds, fd, Close(fd, true) in ops)
  {
    if ops != [] {
      var init, op := ops[..|ops| - 1], ops[|ops| - 1];
      FirstIsOpen(init, fd);
      OpenAreListed(init);
      assert ops == init + [op];
      LeadsStep(RunOps(init), Open(init).fds, op, Accepts(init), fd, Close(fd, true) in init);
    }
  }

  lemma LeadsStep(l: seq<Link>, open: Descriptors, op: Op, n: nat, fd: int, left: bool)
    requires Ordered(l, n) && (forall fd | fd in open :: Link(fd, open[fd]) in l) && Allowed(open, op)
    requires Leads(l, open, fd, left)
    ensures var after := if op.Accept? then open[op.fd := n] else open - {op.fd};
      Leads(Apply(l, op, n), after, fd, left || op == Close(fd, true))
  {
    match op
    case Accept(other) =>
      FirstOfLonger(l, Link(other, n), fd);
    case Close(other, done) =>
      if !done && other == fd {
        WithoutMeans(l, fd, n);
        LeadsWithout(l, open, fd, left);
      } else if !done {
        WithoutMeans(l, other, n);
        WithoutOthers(l, other, fd);
        hide First;
      }
      hide Without;
      hide Ordered;
  }

  lemma LeadsWithout(l: seq<Link>, open: Descriptors, fd: int, left: bool)
    requires fd in open && Link(fd, open[fd]) in l && Leads(l, open, fd, left)
    requires forall x :: x in Without(l, fd) <==> x in l && x !in First(l, fd)
    ensures Leads(Without(l, fd), open - {fd}, fd, left)
  {
    FirstExists(Without(l, fd), fd);
    hide Without;
    hide First;
    assert left ==> Link(fd, open[fd]) in Without(l, fd);
  }

  /** The list holds exactly the open connections. */
  ghost predicate Exact(l: seq<Link>, open: Descriptors) {
    forall x: Link :: x in l <==> x.fd in open && open[x.fd] == x.nth
  }

  /** Over every run of connections accepted and closed, the list holds exactly the open ones if and only if no close came
      with `done` set. */
  lemma ListIsOpenSet(ops: seq<Op>)
    requires Open(ops).AreOpen?
    ensures Exact(RunOps(ops), Open(ops).fds) <==> forall fd :: Close(fd, true) !in ops
  {
    var l, open := RunOps(ops), Open(ops).fds;
    hide RunOps;
    hide Open;
    OpenAreListed(ops);
    if fd :| Close(fd, true) in ops {
      FirstIsOpen(ops, fd);
      assert First(l, fd)[0] in l;
    } else {
      forall x: Link
        ensures x in l <==> x.fd in open && open[x.fd] == x.nth
      {
        FirstIsOpen(ops, x.fd);
      }
    }
  }

  /** Destroying the session of an open descriptor takes its own connection out of the list, and not that of an earlier
      session, if and only if no earlier close of that descriptor came with `done` set. */
  lemma DestroyedExactly(ops: seq<Op>, fd: int)
    requires Open(ops).AreOpen? && fd in Open(ops).fds
    ensures Link(fd, Open(ops).fds[fd]) !in Without(RunOps(ops), fd) <==> Close(fd, true) !in ops
  {
    hide RunOps;
    hide Open;
    OpenAreListed(ops);
    FirstIsOpen(ops, fd);
    WithoutMeans(RunOps(ops), fd, Accepts(ops));
  }

  /** A descriptor closed with `done` set and given out again: two connections of the list have it, and destroying the
      session that is open frees the other one. */
  lemma ReusedDescriptor(fd: int)
    ensures var ops := [Accept(fd), Close(fd, true), Accept(fd)];
      && Open(ops) == AreOpen(map[fd := 1]) && RunOps(ops) == [Link(fd, 0), Link(fd, 1)]
      && RunOps(ops + [Close(fd, false)]) == [Link(fd, 1)] && Open(ops + [Close(fd, false)]) == AreOpen(map[])
  {
    var a, b, c, d := Accept(fd), Close(fd, true), Accept(fd), Close(fd, false);
    var ops := [a, b, c];
    assert [a][..0] == [] && [a, b][..1] == [a] && ops[..2] == [a, b] && (ops + [d])[..3] == ops;
    assert RunOps([a]) == [Link(fd, 0)] && Open([a]) == AreOpen(map[fd := 0]) && Accepts([a]) == 1;
    assert RunOps([a, b]) == [Link(fd, 0)] && Open([a, b]) == AreOpen(map[]) && Accepts([a, b]) == 1;
    assert RunOps(ops) == [Link(fd, 0), Link(fd, 1)] && Open(ops) == AreOpen(map[fd := 1]);
    assert Open(ops + [d]) == AreOpen(map[]);
  }

  // ---------------------------------------------------------------------------------------------
  // The linked list.

  class Connection {
    const clientFd: int
    ghost const nth: nat
    var next: Connection?

    constructor (fd: int, ghost nth: nat)
      ensures clientFd == fd && this.nth == nth && next == null
    {
      clientFd := fd;
      this.nth := nth;
      next := null;
    }
  }

  function At(nodes: seq<Connection>, i: nat): Connection? {
    if i < |nodes| then nodes[i] else null
  }

  /** `nodes`, all different, are the list that starts at `head`. */
  ghost predicate Linked(head: Connection?, nodes: seq<Connection>)
    reads nodes
  {
    && head == At(nodes, 0)
    && (forall i: nat | i < |nodes| :: nodes[i].next == At(nodes, i + 1))
    && (forall i: nat, j: nat | i < j < |nodes| :: nodes[i] != nodes[j])
  }

  lemma HeadOf(head: Connection?, nodes: seq<Connection>)
    requires Linked(head, nodes)
    ensures head == null <==> nodes == []
  {
  }

  lemma TailLinked(s: Connection, nodes: seq<Connection>)
    requires Linked(s, nodes)
    ensures nodes != [] && nodes[0] == s && Linked(s.next, nodes[1..]) && s !in nodes[1..]
  {
    var rest := nodes[1..];
    forall i: nat | i < |rest|
      ensures rest[i].next == At(rest, i + 1)
    {
      assert rest[i] == nodes[i + 1] && At(rest, i + 1) == At(nodes, i + 2);
    }
  }

  lemma ConsLinked(s: Connection, rest: seq<Connection>)
    requires Linked(s.next, rest) && s !in rest
    ensures Linked(s, [s] + rest)
  {
    var nodes := [s] + rest;
    forall i: nat | i < |nodes|
      ensures nodes[i].next == At(nodes, i + 1)
    {
      assert At(nodes, i + 1) == At(rest, i);
      if i > 0 {
        assert nodes[i] == rest[i - 1];
      }
    }
  }

  ghost function Links(nodes: seq<Connection>): (r: seq<Link>)
    ensures |r| == |nodes|
  {
    seq(|nodes|, i requires 0 <= i < |nodes| => Link(nodes[i].clientFd, nodes[i].nth))
  }

  lemma LinksCons(s: Connection, nodes: seq<Connection>)
    ensures Links([s] + nodes) == [Link(s.clientFd, s.nth)] + Links(nodes)
    ensures Links([s] + nodes)[1..] == Links(nodes)
  {
  }

  /** remove_client_rec */
  method RemoveClientRec(s: Connection?, clientFd: int, ghost nodes: seq<Connection>)
    returns (head: Connection?, ghost left: seq<Connection>)
    requires Linked(s, nodes)
    modifies nodes
    ensures Linked(head, left) && Links(left) == Without(Links(nodes), clientFd)
    ensures forall n | n in left :: n in nodes
    decreases |nodes|
  {
    if s == null {
      return null, [];
    }
    ghost var rest := nodes[1..];
    TailLinked(s, nodes);
    LinksCons(s, rest);
    assert nodes == [s] + rest;
    hide Linked;
    hide Links;
    if s.clientFd == clientFd {
      return s.next, rest;
    }
    var next;
    next, left := RemoveClientRec(s.next, clientFd, rest);
    s.next := next;
    ConsLinked(s, left);
    LinksCons(s, left);
    left := [s] + left;
    head := s;
  }

  class Clients {
    var head: Connection?
    var connections: nat
    var historic: nat
    ghost var nodes: seq<Connection>
    ghost var accepted: nat

    ghost predicate Valid()
      reads this, nodes
    {
      Linked(head, nodes) && connections == Unsigned(|nodes|) && historic == Unsigned(accepted)
    }

    ghost function List(): seq<Link>
      reads this
    {
      Links(nodes)
    }

    constructor ()
      ensures Valid() && List() == [] && accepted == 0 && nodes == []
    {
      head, connections, historic, nodes, accepted := null, 0, 0, [], 0;
    }

    /** The list part of pop3_new: the new connection goes to the end. */
    method Pop3New(fd: int)
      requires Valid()
      modifies this, nodes
      ensures Valid() && List() == old(List()) + [Link(fd, old(accepted))] && accepted == old(accepted) + 1
      ensures |nodes| == |old(nodes)| + 1 && nodes[..|old(nodes)|] == old(nodes) && fresh(nodes[|old(nodes)|])
    {
      var ret := new Connection(fd, accepted);
      hide Unsigned;
      hide Linked;
      Counts(|nodes|);
      Counts(accepted);
      connections := Unsigned(connections + 1);
      historic := Unsigned(historic + 1);
      accepted := accepted + 1;
      Append(ret);
    }

    /** The last of the list. */
    method Tail() returns (aux: Connection)
      requires Linked(head, nodes) && nodes != []
      ensures aux == nodes[|nodes| - 1]
    {
      aux := head;
      ghost var i := 0;
      while aux.next != null
        invariant 0 <= i < |nodes| && aux == nodes[i]
        decreases |nodes| - i
      {
        assert aux.next == At(nodes, i + 1);
        aux := aux.next;
        i := i + 1;
      }
      assert aux.next == At(nodes, i + 1);
    }

    method Append(ret: Connection)
      requires Linked(head, nodes) && ret !in nodes && ret.next == null
      modifies this`head, this`nodes, nodes
      ensures Linked(head, nodes) && nodes == old(nodes) + [ret]
    {
      ghost var l := nodes;
      if head == null {
        head := ret;
      } else {
        var aux := Tail();
        aux.next := ret;
      }
      nodes := nodes + [ret];
      forall k: nat | k < |nodes|
        ensures nodes[k].next == At(nodes, k + 1)
      {
        if k + 1 < |l| {
          assert nodes[k] == l[k] && At(nodes, k + 1) == At(l, k + 1);
        }
      }
    }

    /** The list part of pop3_destroy. */
    method Pop3Destroy(fd: int)
      requires Valid() && First(List(), fd) != []
      modifies this, nodes
      ensures Valid() && List() == Without(old(List()), fd) && accepted == old(accepted)
      ensures forall k: nat | k < |nodes| :: nodes[k] in old(nodes)
    {
      WithoutLength(List(), fd);
      hide First;
      hide Without;
      hide Linked;
      hide Links;
      Counts(|nodes|);
      hide Unsigned;
      RemoveClient(fd);
      connections := Unsigned(connections - 1);
    }

    /** remove_client */
    method RemoveClient(fd: int)
      requires Linked(head, nodes)
      modifies this`head, this`nodes, nodes
      ensures Linked(head, nodes) && Links(nodes) == Without(old(Links(nodes)), fd)
      ensures forall k: nat | k < |nodes| :: nodes[k] in old(nodes)
    {
      HeadOf(head, nodes);
      hide Linked;
      if head == null {
        return;
      }
      hide Without;
      hide Links;
      head, nodes := RemoveClientRec(head, fd, nodes);
    }

    /** pop3_close: a session whose mail has ended and was not sent yet stays. */
    method Pop3Close(fd: int, done: bool)
      requires Valid() && First(List(), fd) != []
      modifies this, nodes
      ensures Valid() && List() == (if done then old(List()) else Without(old(List()), fd)) && accepted == old(accepted)
      ensures done ==> connections == old(connections)
      ensures forall k: nat | k < |nodes| :: nodes[k] in old(nodes)
    {
      if !done {
        Pop3Destroy(fd);
      }
    }
  }

  lemma {:induction false} WithoutLength(l: seq<Link>, fd: int)
    ensures |Without(l, fd)| == |l| - |First(l, fd)|
  {
    if l != [] {
      WithoutLength(l[1..], fd);
    }
  }

  /** Any run on the nodes ends in the list of the pure run. The live counter is the number of open connections and of closes
      with `done` set, the other one how many connections there ever were. */
  method RunOnNodes(ops: seq<Op>) returns (c: Clients)
    requires Open(ops).AreOpen?
    ensures c.Valid() && c.List() == RunOps(ops)
    ensures c.connections == Unsigned(|Open(ops).fds| + Left(ops)) && c.historic == Unsigned(Accepts(ops))
  {
    hide Unsigned;
    hide Linked;
    hide Without;
    hide Open;
    c := new Clients();
    for i := 0 to |ops|
      invariant c.Valid() && fresh(c) && fresh(c.nodes)
      invariant c.List() == RunOps(ops[..i]) && c.accepted == Accepts(ops[..i])
    {
      StepOpen(ops, i);
      match ops[i] {
        case Accept(fd) => c.Pop3New(fd);
        case Close(fd, done) => c.Pop3Close(fd, done);
      }
    }
    assert ops[..|ops|] == ops;
    OpenAreListed(ops);
  }

  lemma StepOpen(ops: seq<Op>, i: nat)
    requires Open(ops).AreOpen? && i < |ops|
    ensures RunOps(ops[..i + 1]) == Apply(RunOps(ops[..i]), ops[i], Accepts(ops[..i]))
    ensures Accepts(ops[..i + 1]) == Accepts(ops[..i]) + if ops[i].Accept? then 1 else 0
    ensures ops[i].Close? ==> First(RunOps(ops[..i]), ops[i].fd) != []
  {
    hide First;
    hide Apply;
    hide Without;
    assert ops[..i + 1][..i] == ops[..i];
    EarlierOpen(ops, i + 1);
    if ops[i].Close? {
      ClosedIsListed(ops[..i], ops[i]);
    }
  }

  lemma ClosedIsListed(ops: seq<Op>, op: Op)
    requires Open(ops).AreOpen? && op.fd in Open(ops).fds
    ensures First(RunOps(ops), op.fd) != []
  {
    OpenAreListed(ops);
    hide Open;
    hide RunOps;
    hide Ordered;
    assert Link(op.fd, Open(ops).fds[op.fd]) in RunOps(ops);
    FirstExists(RunOps(ops), op.fd);
    hide First;
  }

  lemma {:induction false} EarlierOpen(ops: seq<Op>, n: nat)
    requires n <= |ops| && Open(ops).AreOpen?
    ensures Open(ops[..n]).AreOpen?
  {
    if n < |ops| {
      var init := ops[..|ops| - 1];
      EarlierOpen(init, n);
      assert init[..n] == ops[..n];
    } else {
      assert ops[..n] == ops;
    }
  }
}
