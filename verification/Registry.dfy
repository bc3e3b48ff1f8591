/** pop3nio.c, the user registry: a linked list changed by recursive functions. */
module Registry {
  import opened Bytes

  datatype Account = Account(user: Str, pass: Str)

  // ---------------------------------------------------------------------------------------------
  // The registry as a list of accounts and as a map.

  predicate Knows(l: seq<Account>, user: Str) {
    exists i :: 0 <= i < |l| && l[i].user == user
  }

  function Registered(l: seq<Account>, user: Str, pass: Str): seq<Account> {
    if Knows(l, user) then l else l + [Account(user, pass)]
  }

  /** Without the first account of that name. */
  function Unregistered(l: seq<Account>, user: Str): seq<Account> {
    if l == [] then []
    else if l[0].user == user then l[1..]
    else [l[0]] + Unregistered(l[1..], user)
  }

  ghost predicate Distinct(l: seq<Account>) {
    forall i, j | 0 <= i < j < |l| :: l[i].user != l[j].user
  }

  /** Removal takes out exactly one account and keeps the order of the others. */
  lemma {:induction false} RemovesExactlyOne(l: seq<Account>, user: Str, i: nat)
    requires i < |l| && l[i].user == user && forall j | 0 <= j < i :: l[j].user != user
    ensures Unregistered(l, user) == l[..i] + l[i + 1..]
  {
    if i > 0 {
      RemovesExactlyOne(l[1..], user, i - 1);
      assert [l[0]] + l[1..][..i - 1] == l[..i];
    }
  }

  lemma {:induction false} RemovesNothingElse(l: seq<Account>, user: Str)
    requires !Knows(l, user)
    ensures Unregistered(l, user) == l
  {
    if l != [] {
      assert forall i | 0 <= i < |l[1..]| :: l[1..][i] == l[i + 1];
      RemovesNothingElse(l[1..], user);
    }
  }

  datatype Op = Register(user: Str, pass: Str) | Unregister(user: Str)

  function Apply(l: seq<Account>, op: Op): seq<Account> {
    match op
    case Register(user, pass) => Registered(l, user, pass)
    case Unregister(user) => Unregistered(l, user)
  }

  function Run(ops: seq<Op>): seq<Account> {
    if ops == [] then [] else Apply(Run(ops[..|ops| - 1]), ops[|ops| - 1])
  }

  function IdealStep(m: map<Str, Str>, op: Op): map<Str, Str> {
    match op
    case Register(user, pass) => if user in m then m else m[user := pass]
    case Unregister(user) => m - {user}
  }

  /** The ideal registry: the first registration of a name stands until the name is removed. */
  function Ideal(ops: seq<Op>): map<Str, Str> {
    if ops == [] then map[] else IdealStep(Ideal(ops[..|ops| - 1]), ops[|ops| - 1])
  }

  ghost predicate SameAccounts(l: seq<Account>, m: map<Str, Str>) {
    && Distinct(l)
    && (forall i | 0 <= i < |l| :: l[i].user in m && m[l[i].user] == l[i].pass)
    && (forall u | u in m :: Knows(l, u))
  }

  lemma SameNames(l: seq<Account>, m: map<Str, Str>, user: Str)
    requires SameAccounts(l, m)
    ensures Knows(l, user) <==> user in m
  {
  }

  lemma AddingKeepsAccounts(l: seq<Account>, m: map<Str, Str>, user: Str, pass: Str)
    requires SameAccounts(l, m) && user !in m
    ensures SameAccounts(l + [Account(user, pass)], m[user := pass])
  {
    var l' := l + [Account(user, pass)];
    forall u | u in m[user := pass]
      ensures Knows(l', u)
    {
      if u in m {
        var i :| 0 <= i < |l| && l[i].user == u;
        assert l'[i].user == u;
      } else {
        assert l'[|l|].user == u;
      }
    }
  }

  lemma RemovingKeepsAccounts(l: seq<Account>, m: map<Str, Str>, i: nat)
    requires SameAccounts(l, m) && i < |l|
    ensures SameAccounts(l[..i] + l[i + 1..], m - {l[i].user})
  {
    var r := l[..i] + l[i + 1..];
    assert forall k | 0 <= k < |r| :: r[k] == l[if k < i then k else k + 1];
    forall u | u in m - {l[i].user}
      ensures Knows(r, u)
    {
      var k :| 0 <= k < |l| && l[k].user == u;
      assert r[if k < i then k else k - 1].user == u;
    }
  }

  lemma StepKeepsAccounts(l: seq<Account>, m: map<Str, Str>, op: Op)
    requires SameAccounts(l, m)
    ensures SameAccounts(Apply(l, op), IdealStep(m, op))
  {
    SameNames(l, m, op.user);
    match op {
      case Register(user, pass) =>
        if user !in m {
          AddingKeepsAccounts(l, m, user, pass);
        }
      case Unregister(user) =>
        if Knows(l, user) {
          var i :| 0 <= i < |l| && l[i].user == user;
          RemovesExactlyOne(l, user, i);
          RemovingKeepsAccounts(l, m, i);
        } else {
          RemovesNothingElse(l, user);
          assert m - {user} == m;
        }
    }
  }

  /** Over all sequences of registrations and removals the list is the map: names stay distinct, a duplicate
      registration changes nothing, and a pair is in the list exactly when the map holds it. */
  lemma {:induction false} RegistryIsMap(ops: seq<Op>)
    ensures SameAccounts(Run(ops), Ideal(ops))
    ensures forall u, p :: Account(u, p) in Run(ops) <==> u in Ideal(ops) && Ideal(ops)[u] == p
  {
    if ops != [] {
      var init, op := ops[..|ops| - 1], ops[|ops| - 1];
      RegistryIsMap(init);
      StepKeepsAccounts(Run(init), Ideal(init), op);
    }
    PairsOfMap(Run(ops), Ideal(ops));
  }

  lemma PairsOfMap(l: seq<Account>, m: map<Str, Str>)
    requires SameAccounts(l, m)
    ensures forall u, p :: Account(u, p) in l <==> u in m && m[u] == p
  {
    forall u, p | u in m && m[u] == p
      ensures Account(u, p) in l
    {
      var i :| 0 <= i < |l| && l[i].user == u;
      assert l[i] == Account(u, p);
    }
  }

  // ---------------------------------------------------------------------------------------------
  // The linked list.

  class Node {
    const user: Str
    const pass: Str
    var next: Node?
    ghost var list: seq<Account>
    ghost var repr: set<Node>

    constructor (user: Str, pass: Str)
      ensures Valid() && this.user == user && this.pass == pass && next == null
      ensures list == [Account(user, pass)] && fresh(repr)
    {
      this.user, this.pass, next := user, pass, null;
      list := [Account(user, pass)];
      repr := {this};
    }

    /** `c->next = rest`. */
    method SetNext(rest: Node?)
      requires rest != null ==> rest.Valid() && this !in rest.repr
      modifies this
      ensures Valid() && next == rest
      ensures list == [Account(user, pass)] + List(rest) && repr == {this} + Repr(rest)
    {
      next := rest;
      list := [Account(user, pass)] + List(rest);
      repr := {this} + Repr(rest);
    }

    ghost predicate Valid()
      reads this, repr
      decreases repr
    {
      && this in repr
      && (next == null ==> repr == {this} && list == [Account(user, pass)])
      && (next != null ==>
            && next in repr && this !in next.repr && repr == {this} + next.repr
            && next.Valid() && list == [Account(user, pass)] + next.list)
    }
  }

  ghost predicate ValidList(c: Node?)
    reads c, if c == null then {} else c.repr
  {
    c != null ==> c.Valid()
  }

  ghost function Repr(c: Node?): set<Node>
    reads c
  {
    if c == null then {} else c.repr
  }

  ghost function List(c: Node?): seq<Account>
    reads c
  {
    if c == null then [] else c.list
  }

  lemma KnowsHead(l: seq<Account>, user: Str)
    requires l != []
    ensures Knows(l, user) <==> l[0].user == user || Knows(l[1..], user)
    ensures forall pass :: l[0].user != user ==> Registered(l, user, pass) == [l[0]] + Registered(l[1..], user, pass)
  {
    if Knows(l, user) && l[0].user != user {
      var i :| 0 <= i < |l| && l[i].user == user;
      assert l[1..][i - 1].user == user;
    }
    if Knows(l[1..], user) {
      var i :| 0 <= i < |l[1..]| && l[1..][i].user == user;
      assert l[i + 1].user == user;
    }
  }

  /** register_user_rec: `flag` is 1 when the name was taken. */
  method RegisterUserRec(c: Node?, user: Str, pass: Str) returns (head: Node, flag: int)
    requires ValidList(c)
    modifies Repr(c)
    ensures head.Valid() && head.list == Registered(old(List(c)), user, pass)
    ensures flag == if Knows(old(List(c)), user) then 1 else 0
    ensures (c != null ==> head == c) && fresh(head.repr - old(Repr(c)))
    decreases Repr(c)
  {
    if c == null {
      head := new Node(user, pass);
      return head, 0;
    }
    KnowsHead(c.list, user);
    if c.user == user {
      return c, 1;
    }
    var rest, f := RegisterUserRec(c.next, user, pass);
    c.SetNext(rest);
    return c, f;
  }

  /** unregister_user_rec: the caller's `error` becomes 0 when a node is removed. */
  method UnregisterUserRec(c: Node?, user: Str, error: int) returns (head: Node?, error': int)
    requires ValidList(c)
    modifies Repr(c)
    ensures ValidList(head) && List(head) == Unregistered(old(List(c)), user)
    ensures error' == if Knows(old(List(c)), user) then 0 else error
    ensures Repr(head) <= old(Repr(c))
    ensures c != null && c.user != user ==> head == c
    ensures c != null && c.user == user ==> c.Valid() && c.list == old(c.list)
    decreases Repr(c)
  {
    if c == null {
      return c, error;
    }
    ghost var l := c.list;
    KnowsHead(l, user);
    if c.user == user {
      return c.next, 0;
    }
    assert List(c.next) == l[1..];
    var rest, e := UnregisterUserRec(c.next, user, error);
    c.SetNext(rest);
    return c, e;
  }

  /** unregister_user drops the new head: what its caller still holds is the registry without that user exactly when
      the user was not at the head. */
  method UnregisterUser(c: Node?, user: Str) returns (error: int)
    requires ValidList(c)
    modifies Repr(c)
    ensures error == if Knows(old(List(c)), user) then 0 else 1
    ensures ValidList(c) && (List(c) == Unregistered(old(List(c)), user) <==> c == null || c.user != user)
  {
    if c == null {
      return 1;
    }
    KnowsHead(c.list, user);
    var head;
    head, error := UnregisterUserRec(c, user, 1);
    assert c.user == user ==> Unregistered(old(List(c)), user) == old(List(c))[1..];
  }

  /** validate_user: true exactly for the pairs registered. */
  method ValidateUser(c: Node?, user: Str, pass: Str) returns (ok: bool)
    requires ValidList(c)
    ensures ok <==> Account(user, pass) in List(c)
  {
    var aux := c;
    ghost var seen: seq<Account> := [];
    while aux != null
      invariant ValidList(aux) && List(c) == seen + List(aux)
      invariant Account(user, pass) !in seen
      decreases Repr(aux)
    {
      if aux.user == user && aux.pass == pass {
        return true;
      }
      seen := seen + [Account(aux.user, aux.pass)];
      aux := aux.next;
    }
    return false;
  }

  /** Any run of registrations and removals, done on the nodes, ends in the list of the pure run. */
  method RunOnNodes(ops: seq<Op>) returns (head: Node?)
    ensures ValidList(head) && List(head) == Run(ops)
  {
    head := null;
    for i := 0 to |ops|
      invariant ValidList(head) && List(head) == Run(ops[..i]) && fresh(Repr(head))
    {
      assert ops[..i + 1][..i] == ops[..i];
      match ops[i] {
        case Register(user, pass) =>
          var flag;
          head, flag := RegisterUserRec(head, user, pass);
        case Unregister(user) =>
          var error;
          head, error := UnregisterUserRec(head, user, 1);
      }
    }
    assert ops[..|ops|] == ops;
  }
}
