/** selector.c: the table of file descriptors, its derived sets, and the dispatch of ready descriptors. */
module Selector {

  /** FD_SETSIZE. */
  const ITEMS_MAX_SIZE: nat := 1024

  const FD_UNUSED: int := -1

  datatype Status = Success | MaxFd | IArgs | FdInUse

  datatype Interest = Interest(read: bool, write: bool)

  const NOOP := Interest(false, false)

  /** A slot. Handlers and their data play no part in the table's bookkeeping. */
  datatype Item = Item(fd: int, interest: Interest)

  predicate InvalidFd(fd: int) {
    fd < 0 || fd >= ITEMS_MAX_SIZE
  }

  // ---------------------------------------------------------------------------------------------
  // Growth.

  function Pow2(n: nat): (p: nat)
    ensures p >= 1
  {
    if n == 0 then 1 else 2 * Pow2(n - 1)
  }

  /** How many shifts to the right make `n` zero. */
  function Bits(n: nat): nat {
    if n == 0 then 0 else 1 + Bits(n / 2)
  }

  /** 1 shifted back as often is the least power of two above `n`. */
  lemma {:induction false} LeastPowerAbove(n: nat)
    ensures n < Pow2(Bits(n)) && (n > 0 ==> Pow2(Bits(n) - 1) <= n)
  {
    if n > 1 {
      LeastPowerAbove(n / 2);
    }
  }

  /** The least power of two above `n`, clamped to the platform's limit, plus one. */
  function Capacity(n: nat): nat {
    (if Pow2(Bits(n)) > ITEMS_MAX_SIZE then ITEMS_MAX_SIZE else Pow2(Bits(n))) + 1
  }

  /** It is never above 1025, and enough for descriptor `n` exactly when the platform can have it. */
  lemma CapacityCovers(n: nat)
    ensures Capacity(n) <= ITEMS_MAX_SIZE + 1 && (n < Capacity(n) <==> n <= ITEMS_MAX_SIZE)
  {
    LeastPowerAbove(n);
  }

  method NextCapacity(n: nat) returns (capacity: nat)
    ensures capacity == Capacity(n)
    ensures capacity <= ITEMS_MAX_SIZE + 1
    ensures n < capacity <==> n <= ITEMS_MAX_SIZE
  {
    CapacityCovers(n);
    var bits, tmp: nat := 0, n;
    while tmp != 0
      invariant bits + Bits(tmp) == Bits(n)
    {
      tmp := tmp / 2;
      bits := bits + 1;
    }
    tmp := Pow2(bits);
    if tmp > ITEMS_MAX_SIZE {
      tmp := ITEMS_MAX_SIZE;
    }
    capacity := tmp + 1;
  }

  /** The size of the table after the growth test of `selector_register`. */
  function SizeAfterTest(size: nat, fd: nat): nat {
    if fd > size then Capacity(fd) else size
  }

  /** It covers every descriptor of the platform but one: the one equal to the size of the table. */
  lemma RegisterIndexesItsSlot(size: nat, fd: nat)
    requires !InvalidFd(fd)
    ensures fd < SizeAfterTest(size, fd) <==> fd != size
  {
    CapacityCovers(fd);
  }

  /** The tables of ten and of five hundred elements. The server starts with the second. */
  lemma FirstSizes()
    ensures Capacity(10) == 17 && Capacity(500) == 513 && Capacity(20) == 33
  {
    assert Bits(10) == 4 && Bits(20) == 5;
    assert Bits(500) == 1 + Bits(250) && Bits(250) == 1 + Bits(125) && Bits(125) == 1 + Bits(62) && Bits(62) == 6;
    assert Pow2(4) == 16 && Pow2(5) == 32 && Pow2(9) == 32 * Pow2(4);
  }

  /** The server's table does not cover descriptor 513, which it has no room for and does not grow for. */
  lemma ServerMisses513()
    ensures var size := Capacity(500); !InvalidFd(513) && SizeAfterTest(size, 513) == size == 513
  {
    FirstSizes();
  }

  // ---------------------------------------------------------------------------------------------
  // The table.

  predicate InUse(item: Item) {
    item.fd != FD_UNUSED
  }

  /** Slots are unused or hold their own index, which is a descriptor of the platform. */
  predicate OwnIndex(items: seq<Item>) {
    forall i | 0 <= i < |items| :: InUse(items[i]) ==> items[i].fd == i < ITEMS_MAX_SIZE
  }

  /** `max` is the largest descriptor in use, 0 if there is none. */
  predicate IsMaxFd(items: seq<Item>, max: nat) {
    && max < |items|
    && (max == 0 || InUse(items[max]))
    && forall i | 0 <= i < |items| :: InUse(items[i]) ==> i <= max
  }

  /** The registrations: descriptor and interest of every slot in use. */
  function Registrations(items: seq<Item>): map<int, Interest> {
    map i | 0 <= i < |items| && InUse(items[i]) :: items[i].interest
  }

  function Readers(t: map<int, Interest>): set<int> {
    set fd | fd in t && t[fd].read
  }

  function Writers(t: map<int, Interest>): set<int> {
    set fd | fd in t && t[fd].write
  }

  /** The slot is in use or was blanked when it was given back. Memory that `realloc` added never was. */
  predicate Clean(items: seq<Item>, i: int) {
    0 <= i < |items| && (InUse(items[i]) || items[i].interest == NOOP)
  }

  predicate KeepsClean(before: seq<Item>, after: seq<Item>) {
    forall i | 0 <= i < |before| && Clean(before, i) :: Clean(after, i)
  }

  class Table {
    var fds: array<Item>
    var fdSize: nat
    var maxFd: nat
    var masterR: set<int>
    var masterW: set<int>
    /** The calls made by the dispatch and what the callbacks did, in order: what a handler can have seen so far. */
    var log: seq<Entry>

    /** The sets and the maximum are exactly those of the slots. */
    ghost predicate Valid()
      reads this, fds
    {
      && fds.Length == fdSize <= ITEMS_MAX_SIZE + 1
      && OwnIndex(fds[..]) && IsMaxFd(fds[..], maxFd)
      && masterR == Readers(Registered()) && masterW == Writers(Registered())
    }

    ghost function Registered(): map<int, Interest>
      reads this, fds
    {
      Registrations(fds[..])
    }

    predicate Used(i: nat)
      requires i < fds.Length
      reads this, fds
    {
      InUse(fds[i])
    }

    /** selector_new: the first allocation. */
    constructor (initialElements: nat)
      requires initialElements <= ITEMS_MAX_SIZE
      ensures Valid() && Registered() == map[] && fresh(fds) && log == []
      ensures fdSize == Capacity(initialElements) > initialElements
    {
      var size := NextCapacity(initialElements);
      fds := new Item[size](i => Item(FD_UNUSED, NOOP));
      fdSize := size;
      maxFd := 0;
      masterR, masterW := {}, {};
      log := [];
      new;
      assert Registrations(fds[..]) == map[];
    }

    /** items_init: the slots from `last` on become unused. */
    method ItemsInit(last: nat)
      requires fds.Length == fdSize && last <= fdSize
      modifies fds
      ensures fds[..last] == old(fds[..last])
      ensures forall i | last <= i < fdSize :: !InUse(fds[i])
    {
      var i := last;
      while i < fdSize
        invariant last <= i <= fdSize
        invariant fds[..last] == old(fds[..last])
        invariant forall j | last <= j < i :: !InUse(fds[j])
      {
        fds[i] := Item(FD_UNUSED, fds[i].interest);
        i := i + 1;
      }
    }

    /** Every old slot is kept and every new one is unused. */
    method EnsureCapacity(n: nat) returns (ret: Status)
      requires Valid()
      modifies this`fds, this`fdSize, fds
      ensures Valid() && Registered() == old(Registered()) && (fds == old(fds) || fresh(fds))
      ensures ret == if n < old(fdSize) || n <= ITEMS_MAX_SIZE then Success else MaxFd
      ensures ret == Success ==> n < fdSize
      ensures fdSize == if old(fdSize) <= n <= ITEMS_MAX_SIZE then Capacity(n) else old(fdSize)
      ensures fdSize == old(fdSize) <==> fds == old(fds)
      ensures old(fds[..]) <= fds[..]
      ensures forall i | old(fdSize) <= i < fdSize :: !InUse(fds[i])
    {
      if n < fdSize {
        return Success;
      }
      if n > ITEMS_MAX_SIZE {
        return MaxFd;
      }
      var newSize := NextCapacity(n);
      var tmp := new Item[newSize];
      forall i | 0 <= i < fdSize {
        tmp[i] := fds[i];
      }
      var oldSize := fdSize;
      ghost var items := fds[..];
      fds := tmp;
      fdSize := newSize;
      ItemsInit(oldSize);
      assert fds[..][..oldSize] == items;
      GrowthKeeps(items, fds[..], maxFd);
      ret := Success;
    }

    /** items_max_fd */
    method ItemsMaxFd() returns (max: nat)
      requires fds.Length == fdSize && maxFd < fdSize && OwnIndex(fds[..])
      ensures max <= maxFd && (max == 0 || Used(max))
      ensures forall i | 0 <= i <= maxFd && InUse(fds[i]) :: i <= max
    {
      max := 0;
      var i := 0;
      while i <= maxFd
        invariant 0 <= i <= maxFd + 1
        invariant max <= maxFd && (max == 0 || Used(max))
        invariant forall j | 0 <= j < i && InUse(fds[j]) :: j <= max
      {
        assert fds[..][i] == fds[i];
        if Used(i) {
          if fds[i].fd > max {
            max := fds[i].fd;
          }
        }
        i := i + 1;
      }
    }

    /** items_update_fdset_for_fd */
    method UpdateFdSets(item: Item)
      modifies this`masterR, this`masterW
      ensures masterR == old(masterR) - {item.fd} + (if InUse(item) && item.interest.read then {item.fd} else {})
      ensures masterW == old(masterW) - {item.fd} + (if InUse(item) && item.interest.write then {item.fd} else {})
    {
      masterR := masterR - {item.fd};
      masterW := masterW - {item.fd};
      if InUse(item) {
        if item.interest.read {
          masterR := masterR + {item.fd};
        }
        if item.interest.write {
          masterW := masterW + {item.fd};
        }
      }
    }

    /** The growth test of `selector_register`: it covers every descriptor but the one equal to the size of the table. */
    method MakeRoom(fd: nat) returns (ret: Status)
      requires Valid() && !InvalidFd(fd)
      modifies this`fds, this`fdSize, fds
      ensures Valid() && Registered() == old(Registered()) && ret == Success
      ensures fdSize == SizeAfterTest(old(fdSize), fd)
      ensures fd < fdSize <==> fd != old(fdSize)
      ensures old(fds[..]) <= fds[..] && forall i | old(fdSize) <= i < fdSize :: !InUse(fds[i])
      ensures if fdSize == old(fdSize) then fds == old(fds) else fresh(fds) && fdSize > old(fdSize)
    {
      ret := Success;
      if fd > fdSize {
        ret := EnsureCapacity(fd);
      }
    }

    method Register(fd: int, interest: Interest) returns (ret: Status)
      requires Valid() && (!InvalidFd(fd) ==> fd != fdSize)
      modifies this`fds, this`fdSize, this`maxFd, this`masterR, this`masterW, fds
      ensures Valid()
      ensures fdSize == SizeAfter(old(fdSize), OpRegister(fd, interest))
      ensures if fdSize == old(fdSize) then fds == old(fds) else fresh(fds) && fdSize > old(fdSize)
      ensures ret == if InvalidFd(fd) then IArgs else if fd in old(Registered()) then FdInUse else Success
      ensures Registered() == ReplayOp(old(Registered()), OpRegister(fd, interest))
      ensures ret == Success ==> (fd in masterR <==> interest.read) && (fd in masterW <==> interest.write)
      ensures ret != Success ==> masterR == old(masterR) && masterW == old(masterW)
      ensures forall other | other != fd ::
                (other in masterR <==> other in old(masterR)) && (other in masterW <==> other in old(masterW))
      ensures KeepsClean(old(fds[..]), fds[..])
    {
      if InvalidFd(fd) {
        return IArgs;
      }
      ret := MakeRoom(fd);
      if Used(fd) {
        return FdInUse;
      }
      SlotUpdate(fds[..], maxFd, fd, Item(fd, interest));
      SetsUpdate(Registered(), fd, interest);
      fds[fd] := Item(fd, interest);
      if fd > maxFd {
        maxFd := fd;
      }
      UpdateFdSets(fds[fd]);
      ret := Success;
    }

    method Unregister(fd: int) returns (ret: Status)
      requires Valid() && (!InvalidFd(fd) ==> fd < fdSize)
      modifies this`maxFd, this`masterR, this`masterW, fds
      ensures Valid()
      ensures ret == if fd in old(Registered()) then Success else IArgs
      ensures Registered() == ReplayOp(old(Registered()), OpUnregister(fd))
      ensures fd !in masterR && fd !in masterW
      ensures forall other | other != fd ::
                (other in masterR <==> other in old(masterR)) && (other in masterW <==> other in old(masterW))
      ensures KeepsClean(old(fds[..]), fds[..])
    {
      if InvalidFd(fd) {
        return IArgs;
      }
      if !Used(fd) {
        return IArgs;
      }
      SlotUpdate(fds[..], maxFd, fd, Item(FD_UNUSED, NOOP));
      SetsUpdate(Registered(), fd, NOOP);
      ghost var items := fds[..];
      fds[fd] := Item(fds[fd].fd, NOOP);
      UpdateFdSets(fds[fd]);
      fds[fd] := Item(FD_UNUSED, NOOP);
      assert fds[..] == items[fd := Item(FD_UNUSED, NOOP)];
      maxFd := ItemsMaxFd();
      ret := Success;
    }

    method SetInterest(fd: int, interest: Interest) returns (ret: Status)
      requires Valid() && (!InvalidFd(fd) ==> fd < fdSize)
      modifies this`masterR, this`masterW, fds
      ensures Valid()
      ensures ret == if fd in old(Registered()) then Success else IArgs
      ensures Registered() == ReplayOp(old(Registered()), OpSetInterest(fd, interest))
      ensures ret == Success ==> (fd in masterR <==> interest.read) && (fd in masterW <==> interest.write)
      ensures ret != Success ==> masterR == old(masterR) && masterW == old(masterW)
      ensures forall other | other != fd ::
                (other in masterR <==> other in old(masterR)) && (other in masterW <==> other in old(masterW))
      ensures KeepsClean(old(fds[..]), fds[..])
    {
      if InvalidFd(fd) {
        return IArgs;
      }
      if !Used(fd) {
        return IArgs;
      }
      SlotUpdate(fds[..], maxFd, fd, Item(fd, interest));
      SetsUpdate(Registered(), fd, interest);
      fds[fd] := Item(fds[fd].fd, interest);
      UpdateFdSets(fds[fd]);
      ret := Success;
    }

    /** selector_destroy: every descriptor still registered is unregistered. */
    method Destroy()
      requires Valid()
      modifies this`maxFd, this`masterR, this`masterW, fds
      ensures Valid() && Registered() == map[] && masterR == {} && masterW == {} && maxFd == 0
    {
      var i := 0;
      while i < fdSize
        invariant Valid() && 0 <= i <= fdSize
        invariant forall j | 0 <= j < i :: j !in Registered()
      {
        if Used(i) {
          var _ := Unregister(i);
        }
        i := i + 1;
      }
      assert Registered() == map[];
      assert forall j | 0 <= j < fdSize :: InUse(fds[..][j]) ==> j in Registered();
    }

    ghost function ViewOf(): View
      reads this, fds
    {
      View(Registered(), fdSize, log)
    }

    /** A handler runs: it may register, unregister and change interests as it pleases, as long as it respects what
        the functions above ask of their callers. */
    method Callback(fd: int, kind: Kind, handler: Handler)
      requires Valid()
      modifies this, fds
      ensures Valid() && ViewOf() == Call(old(ViewOf()), fd, kind, handler)
      ensures if fdSize == old(fdSize) then fds == old(fds) else fresh(fds) && fdSize > old(fdSize)
      ensures KeepsClean(old(fds[..]), fds[..])
    {
      log := log + [Called(fd, kind)];
      ghost var v := ViewOf();
      var ops := handler(fd, kind, log);
      DoNone(v, ops);
      hide DoAll;
      hide Do;
      hide Registrations;
      hide KeepsClean;
      for k := 0 to |ops|
        invariant Valid() && ViewOf() == DoAll(v, ops[..k])
        invariant if fdSize == old(fdSize) then fds == old(fds) else fresh(fds) && fdSize > old(fdSize)
        invariant KeepsClean(old(fds[..]), fds[..])
      {
        DoOne(v, ops, k);
        ghost var items := fds[..];
        Perform(ops[k]);
        CleanTwice(old(fds[..]), items, fds[..]);
      }
      assert ops[..|ops|] == ops;
    }

    method Perform(op: Op)
      requires Valid()
      modifies this, fds
      ensures Valid() && ViewOf() == Do(old(ViewOf()), op)
      ensures if fdSize == old(fdSize) then fds == old(fds) else fresh(fds) && fdSize > old(fdSize)
      ensures KeepsClean(old(fds[..]), fds[..])
    {
      if Permitted(fdSize, op) {
        var status;
        match op {
          case OpRegister(fd, interest) => status := Register(fd, interest);
          case OpUnregister(fd) => status := Unregister(fd);
          case OpSetInterest(fd, interest) => status := SetInterest(fd, interest);
        }
        log := log + [Did(op)];
      }
    }

    /** One slot of the iteration. The slot is looked up once: after a read handler that made the table grow, the write
        interest is read from the memory the table left, which is `junk`. */
    method Visit(i: nat, slaveR: set<int>, slaveW: set<int>, handler: Handler, junk: int -> bool)
      requires Valid() && i < fdSize
      modifies this, fds
      ensures Valid() && ViewOf() == VisitOf(old(ViewOf()), i, slaveR, slaveW, handler, junk)
      ensures if fdSize == old(fdSize) then fds == old(fds) else fresh(fds) && fdSize > old(fdSize)
    {
      assert fds[i] == fds[..][i];
      if Used(i) {
        var held := fds;
        assert Clean(fds[..], i);
        if i in slaveR && fds[i].interest.read {
          Callback(i, Reading, handler);
        }
        if i in slaveW {
          assert fds == held ==> Clean(fds[..], i) && held[i] == fds[..][i];
          var wants := if fds == held then held[i].interest.write else junk(i);
          if wants {
            Callback(i, Writing, handler);
          }
        }
      }
    }

    /** handle_iteration over the snapshot `slaveR`, `slaveW` that select returned. */
    method HandleIteration(slaveR: set<int>, slaveW: set<int>, handler: Handler, junk: int -> bool)
      requires Valid()
      modifies this, fds
      ensures Valid() && ViewOf() == Iterate(old(ViewOf()), old(maxFd) + 1, slaveR, slaveW, handler, junk)
    {
      hide VisitOf;
      ghost var v := ViewOf();
      var n := maxFd;
      var i := 0;
      while i <= n
        invariant Valid() && 0 <= i <= n + 1 <= fdSize && (fds == old(fds) || fresh(fds))
        invariant ViewOf() == Iterate(v, i, slaveR, slaveW, handler, junk)
        decreases n - i
      {
        Visit(i, slaveR, slaveW, handler, junk);
        i := i + 1;
      }
    }
  }

  /** selector_new: no table beyond the limit of the platform. */
  method SelectorNew(initialElements: nat) returns (t: Table?)
    ensures t == null <==> initialElements > ITEMS_MAX_SIZE
    ensures t != null ==> t.Valid() && t.Registered() == map[] && t.fdSize == Capacity(initialElements)
  {
    if initialElements > ITEMS_MAX_SIZE {
      return null;
    }
    t := new Table(initialElements);
  }

  lemma CleanTwice(a: seq<Item>, b: seq<Item>, c: seq<Item>)
    requires KeepsClean(a, b) && KeepsClean(b, c)
    ensures KeepsClean(a, c)
  {
  }

  lemma GrowthKeeps(items: seq<Item>, grown: seq<Item>, max: nat)
    requires OwnIndex(items) && IsMaxFd(items, max)
    requires items <= grown && forall i | |items| <= i < |grown| :: !InUse(grown[i])
    ensures OwnIndex(grown) && IsMaxFd(grown, max) && Registrations(grown) == Registrations(items)
  {
  }

  /** Rewriting one slot touches its registration and nothing else. */
  lemma SlotUpdate(items: seq<Item>, max: nat, fd: nat, item: Item)
    requires OwnIndex(items) && IsMaxFd(items, max)
    requires fd < |items| && fd < ITEMS_MAX_SIZE && (InUse(item) ==> item.fd == fd)
    ensures var after, t := items[fd := item], Registrations(items);
      && OwnIndex(after)
      && Registrations(after) == (if InUse(item) then t[fd := item.interest] else t - {fd})
      && (InUse(item) ==> IsMaxFd(after, if fd > max then fd else max))
      && (InUse(item) || item.interest == NOOP ==> KeepsClean(items, after))
  {
  }

  /** What items_update_fdset_for_fd has to do to the sets. */
  lemma SetsUpdate(t: map<int, Interest>, fd: int, interest: Interest)
    ensures Readers(t[fd := interest]) == Readers(t) - {fd} + (if interest.read then {fd} else {})
    ensures Writers(t[fd := interest]) == Writers(t) - {fd} + (if interest.write then {fd} else {})
    ensures Readers(t - {fd}) == Readers(t) - {fd} && Writers(t - {fd}) == Writers(t) - {fd}
  {
  }

  // ---------------------------------------------------------------------------------------------
  // What callbacks may do, and the history of a dispatch.

  datatype Kind = Reading | Writing

  datatype Op =
    | OpRegister(fd: int, interest: Interest)
    | OpUnregister(fd: int)
    | OpSetInterest(fd: int, interest: Interest)

  datatype Entry = Called(fd: int, kind: Kind) | Did(op: Op)

  /** What a callback does may depend on the event and on everything that happened before. */
  type Handler = (int, Kind, seq<Entry>) -> seq<Op>

  /** What the table is worth: registrations, size and history. */
  datatype View = View(t: map<int, Interest>, size: nat, log: seq<Entry>)

  /** What the table asks of those who call it. */
  predicate Permitted(size: nat, op: Op) {
    InvalidFd(op.fd) || op.fd < size || (op.OpRegister? && op.fd != size)
  }

  predicate Grows(size: nat, op: Op) {
    op.OpRegister? && !InvalidFd(op.fd) && op.fd > size
  }

  function SizeAfter(size: nat, op: Op): nat {
    if Grows(size, op) then Capacity(op.fd) else size
  }

  /** An operation of a callback; one that is not permitted is left out. */
  function Do(v: View, op: Op): View {
    if Permitted(v.size, op) then View(ReplayOp(v.t, op), SizeAfter(v.size, op), v.log + [Did(op)]) else v
  }

  function DoAll(v: View, ops: seq<Op>): View {
    if ops == [] then v else Do(DoAll(v, ops[..|ops| - 1]), ops[|ops| - 1])
  }

  lemma DoNone(v: View, ops: seq<Op>)
    ensures DoAll(v, ops[..0]) == v
  {
  }

  lemma DoOne(v: View, ops: seq<Op>, k: nat)
    requires k < |ops|
    ensures DoAll(v, ops[..k + 1]) == Do(DoAll(v, ops[..k]), ops[k])
  {
    assert ops[..k + 1][..k] == ops[..k];
  }

  function Call(v: View, fd: int, kind: Kind, handler: Handler): View {
    var called := v.(log := v.log + [Called(fd, kind)]);
    DoAll(called, handler(fd, kind, called.log))
  }

  function AfterRead(v: View, i: int, slaveR: set<int>, handler: Handler): View {
    if i in slaveR && Wants(v.t, i, Reading) then Call(v, i, Reading, handler) else v
  }

  /** The write interest of slot `i` is read from memory the table has left: its read handler made the table grow. */
  predicate Stale(v: View, i: int, slaveR: set<int>, slaveW: set<int>, handler: Handler) {
    i in v.t && i in slaveW && AfterRead(v, i, slaveR, handler).size != v.size
  }

  function VisitOf(v: View, i: int, slaveR: set<int>, slaveW: set<int>, handler: Handler, junk: int -> bool): View {
    if i !in v.t then v
    else
      var r := AfterRead(v, i, slaveR, handler);
      var wants := if r.size == v.size then Wants(r.t, i, Writing) else junk(i);
      if i in slaveW && wants then Call(r, i, Writing, handler) else r
  }

  function Iterate(v: View, n: nat, slaveR: set<int>, slaveW: set<int>, handler: Handler, junk: int -> bool): View {
    if n == 0 then v
    else VisitOf(Iterate(v, n - 1, slaveR, slaveW, handler, junk), n - 1, slaveR, slaveW, handler, junk)
  }

  /** The registrations after an operation; one that is refused changes nothing. */
  function ReplayOp(t: map<int, Interest>, op: Op): map<int, Interest> {
    match op
    case OpRegister(fd, interest) => if InvalidFd(fd) || fd in t then t else t[fd := interest]
    case OpUnregister(fd) => t - {fd}
    case OpSetInterest(fd, interest) => if fd in t then t[fd := interest] else t
  }

  /** What an operation does to the sets that select is given: the descriptor is in each of them exactly if the interest says
      so, every other one is in them as before, and a refused operation changes neither. */
  lemma OpOnSets(t: map<int, Interest>, op: Op)
    ensures var u, fd := ReplayOp(t, op), op.fd;
      && (forall other | other != fd ::
            (other in Readers(u) <==> other in Readers(t)) && (other in Writers(u) <==> other in Writers(t)))
      && match op
         case OpRegister(_, interest) =>
           if 0 <= fd < 1024 && fd !in t then
             fd in u && (fd in Readers(u) <==> interest.read) && (fd in Writers(u) <==> interest.write)
           else u == t
         case OpSetInterest(_, interest) =>
           if fd in t then fd in u && (fd in Readers(u) <==> interest.read) && (fd in Writers(u) <==> interest.write)
           else u == t
         case OpUnregister(_) => fd !in u && fd !in Readers(u) && fd !in Writers(u)
  {
  }

  function ReplayEntry(t: map<int, Interest>, e: Entry): map<int, Interest> {
    if e.Did? then ReplayOp(t, e.op) else t
  }

  /** The registrations after a piece of history. */
  function Replay(t: map<int, Interest>, log: seq<Entry>): map<int, Interest> {
    if log == [] then t else ReplayEntry(Replay(t, log[..|log| - 1]), log[|log| - 1])
  }

  lemma ReplayStep(t: map<int, Interest>, log: seq<Entry>, e: Entry)
    ensures Replay(t, log + [e]) == ReplayEntry(Replay(t, log), e)
  {
    assert (log + [e])[..|log|] == log;
  }

  lemma {:induction false} ReplaySplit(t: map<int, Interest>, a: seq<Entry>, b: seq<Entry>)
    ensures Replay(t, a + b) == Replay(Replay(t, a), b)
  {
    if b == [] {
      assert a + b == a;
    } else {
      var b' := b[..|b| - 1];
      assert (a + b)[..|a + b| - 1] == a + b';
      ReplaySplit(t, a, b');
    }
  }

  /** `after` is `before`, the call and whatever the callback did. */
  ghost predicate Happened(before: seq<Entry>, after: seq<Entry>, fd: int, kind: Kind) {
    && |before| < |after| && before <= after && after[|before|] == Called(fd, kind)
    && forall k | |before| < k < |after| :: after[k].Did?
  }

  predicate Wants(t: map<int, Interest>, fd: int, kind: Kind) {
    fd in t && if kind.Reading? then t[fd].read else t[fd].write
  }

  predicate Ready(slaveR: set<int>, slaveW: set<int>, fd: int, kind: Kind) {
    if kind.Reading? then fd in slaveR else fd in slaveW
  }

  /** Each call goes to a descriptor that is ready in the snapshot and, at that moment, registered with the interest. */
  ghost predicate Safe(t: map<int, Interest>, slaveR: set<int>, slaveW: set<int>, log: seq<Entry>) {
    forall k | 0 <= k < |log| && log[k].Called? ::
      Ready(slaveR, slaveW, log[k].fd, log[k].kind) && Wants(Replay(t, log[..k]), log[k].fd, log[k].kind)
  }

  /** No callback touched the descriptor. */
  ghost predicate Untouched(log: seq<Entry>, fd: int) {
    forall k | 0 <= k < |log| && log[k].Did? :: log[k].op.fd != fd
  }

  function Calls(log: seq<Entry>, fd: int, kind: Kind): nat {
    if log == [] then 0 else Calls(log[..|log| - 1], fd, kind) + if log[|log| - 1] == Called(fd, kind) then 1 else 0
  }

  /** Nothing is served twice, and every descriptor below `n` that was due and untouched is served once per kind. */
  ghost predicate ServedBelow(t: map<int, Interest>, slaveR: set<int>, slaveW: set<int>, log: seq<Entry>, n: nat) {
    && (forall fd, kind :: Calls(log, fd, kind) <= if 0 <= fd < n then 1 else 0)
    && (forall fd, kind | 0 <= fd < n && Untouched(log, fd) && Wants(t, fd, kind) && Ready(slaveR, slaveW, fd, kind) ::
          Calls(log, fd, kind) == 1)
  }

  ghost predicate Complete(t: map<int, Interest>, slaveR: set<int>, slaveW: set<int>, log: seq<Entry>) {
    && (forall fd, kind :: Calls(log, fd, kind) <= 1)
    && (forall fd, kind | Untouched(log, fd) && Wants(t, fd, kind) && Ready(slaveR, slaveW, fd, kind) ::
          Calls(log, fd, kind) == 1)
  }

  lemma {:induction false} CallsSplit(a: seq<Entry>, b: seq<Entry>, fd: int, kind: Kind)
    requires forall k | 0 <= k < |b| :: b[k].Did?
    ensures Calls(a + b, fd, kind) == Calls(a, fd, kind)
  {
    if b == [] {
      assert a + b == a;
    } else {
      var b' := b[..|b| - 1];
      assert (a + b)[..|a + b| - 1] == a + b';
      CallsSplit(a, b', fd, kind);
    }
  }

  lemma CallCounted(before: seq<Entry>, after: seq<Entry>, fd: int, kind: Kind)
    requires Happened(before, after, fd, kind)
    ensures forall f, k :: Calls(after, f, k) == Calls(before, f, k) + if f == fd && k == kind then 1 else 0
  {
    var called := before + [Called(fd, kind)];
    var rest := after[|before| + 1..];
    assert after == called + rest && called[..|before|] == before;
    forall f, k
      ensures Calls(after, f, k) == Calls(before, f, k) + if f == fd && k == kind then 1 else 0
    {
      CallsSplit(called, rest, f, k);
    }
  }

  /** A justified call, whatever its callback does, keeps the history safe and is counted once. */
  lemma CallAppended(t: map<int, Interest>, slaveR: set<int>, slaveW: set<int>, before: seq<Entry>, after: seq<Entry>,
      fd: int, kind: Kind)
    requires Safe(t, slaveR, slaveW, before) && Happened(before, after, fd, kind)
    requires Ready(slaveR, slaveW, fd, kind) && Wants(Replay(t, before), fd, kind)
    ensures Safe(t, slaveR, slaveW, after)
    ensures Replay(t, after) == Replay(Replay(t, before), after[|before|..])
    ensures forall f, k :: Calls(after, f, k) == Calls(before, f, k) + if f == fd && k == kind then 1 else 0
  {
    hide Calls;
    hide Replay;
    CallCounted(before, after, fd, kind);
    assert after == before + after[|before|..];
    ReplaySplit(t, before, after[|before|..]);
    assert forall k | 0 <= k <= |before| :: after[..k] == before[..k];
  }

  /** Visiting slot `i`: `l0` before, `l1` after the read event, `l2` after the write event. */
  lemma ServedOne(t: map<int, Interest>, slaveR: set<int>, slaveW: set<int>, l0: seq<Entry>, l1: seq<Entry>, l2: seq<Entry>, i: nat)
    requires ServedBelow(t, slaveR, slaveW, l0, i) && l0 <= l1 <= l2
    requires Served(t, slaveR, slaveW, l0, l1, i, Reading) && Served(t, slaveR, slaveW, l1, l2, i, Writing)
    ensures ServedBelow(t, slaveR, slaveW, l2, i + 1)
  {
    forall fd, kind | 0 <= fd <= i && Untouched(l2, fd) && Wants(t, fd, kind) && Ready(slaveR, slaveW, fd, kind)
      ensures Calls(l2, fd, kind) == 1
    {
      UntouchedPrefix(l1, l2, fd);
      UntouchedPrefix(l0, l1, fd);
      UntouchedStays(t, l0, fd);
      UntouchedStays(t, l1, fd);
    }
  }

  lemma UntouchedPrefix(a: seq<Entry>, b: seq<Entry>, fd: int)
    requires a <= b && Untouched(b, fd)
    ensures Untouched(a, fd)
  {
    assert forall k | 0 <= k < |a| :: a[k] == b[k];
  }

  /** From `before` to `after` the event was served if it was due then. */
  ghost predicate Served(t: map<int, Interest>, slaveR: set<int>, slaveW: set<int>, before: seq<Entry>, after: seq<Entry>,
      i: nat, kind: Kind)
  {
    var call := Ready(slaveR, slaveW, i, kind) && Wants(Replay(t, before), i, kind);
    forall f, k :: Calls(after, f, k) == Calls(before, f, k) + if call && f == i && k == kind then 1 else 0
  }

  /** What no callback touched is as it was. */
  lemma {:induction false} UntouchedStays(t: map<int, Interest>, log: seq<Entry>, fd: int)
    requires Untouched(log, fd)
    ensures fd in Replay(t, log) <==> fd in t
    ensures fd in t ==> Replay(t, log)[fd] == t[fd]
  {
    if log != [] {
      UntouchedStays(t, log[..|log| - 1], fd);
    }
  }

  /** A descriptor unregistered in the middle of an iteration, by its own callback or another's, is not called again
      unless somebody registers it anew. */
  lemma {:induction false} SilentAfterUnregister(t: map<int, Interest>, slaveR: set<int>, slaveW: set<int>, log: seq<Entry>,
      fd: int, at: nat, k: nat)
    requires Safe(t, slaveR, slaveW, log)
    requires at < k < |log| && log[at] == Did(OpUnregister(fd))
    requires forall j | at < j < k && log[j].Did? :: !(log[j].op.OpRegister? && log[j].op.fd == fd)
    ensures log[k].Called? ==> log[k].fd != fd
  {
    GoneWhile(t, log, fd, at, k);
  }

  lemma {:induction false} GoneWhile(t: map<int, Interest>, log: seq<Entry>, fd: int, at: nat, k: nat)
    requires at < k <= |log| && log[at] == Did(OpUnregister(fd))
    requires forall j | at < j < k && log[j].Did? :: !(log[j].op.OpRegister? && log[j].op.fd == fd)
    ensures fd !in Replay(t, log[..k])
  {
    assert log[..k] == log[..k - 1] + [log[k - 1]];
    ReplayStep(t, log[..k - 1], log[k - 1]);
    if at + 1 < k {
      GoneWhile(t, log, fd, at, k - 1);
    }
  }

  // ---------------------------------------------------------------------------------------------
  // The dispatch as a whole.

  /** From `v` to `u` only operations were noted, and they explain the registrations. */
  ghost predicate Grew(v: View, u: View) {
    && v.log <= u.log && (forall k | |v.log| <= k < |u.log| :: u.log[k].Did?)
    && u.t == Replay(v.t, u.log[|v.log|..]) && u.size >= v.size
  }

  lemma DoGrows(v: View, w: View, op: Op)
    requires Grew(v, w)
    ensures Grew(v, Do(w, op))
  {
    if Permitted(w.size, op) {
      var u := Do(w, op);
      if Grows(w.size, op) {
        CapacityCovers(op.fd);
      }
      hide Capacity;
      ReplayStep(v.t, w.log[|v.log|..], Did(op));
      assert u.log[|v.log|..] == w.log[|v.log|..] + [Did(op)];
    }
  }

  lemma {:induction false} DoAllHappens(v: View, ops: seq<Op>)
    ensures Grew(v, DoAll(v, ops))
  {
    if ops == [] {
      assert v.log[|v.log|..] == [];
    } else {
      DoAllHappens(v, ops[..|ops| - 1]);
      DoGrows(v, DoAll(v, ops[..|ops| - 1]), ops[|ops| - 1]);
      hide Do;
      hide Grew;
    }
  }

  lemma CallHappens(v: View, fd: int, kind: Kind, handler: Handler)
    ensures var u := Call(v, fd, kind, handler);
      Happened(v.log, u.log, fd, kind) && u.t == Replay(v.t, u.log[|v.log|..]) && u.size >= v.size
  {
    var called := v.(log := v.log + [Called(fd, kind)]);
    var ops := handler(fd, kind, called.log);
    DoAllHappens(called, ops);
    var u := Call(v, fd, kind, handler);
    assert u.log[|v.log|..] == [Called(fd, kind)] + u.log[|v.log| + 1..];
    ReplaySplit(v.t, [Called(fd, kind)], u.log[|v.log| + 1..]);
    var none: seq<Entry> := [];
    assert none + [Called(fd, kind)] == [Called(fd, kind)];
    ReplayStep(v.t, none, Called(fd, kind));
  }

  /** One offer that goes by the table. */
  function Offer(v: View, i: int, kind: Kind, slaveR: set<int>, slaveW: set<int>, handler: Handler): View {
    if Ready(slaveR, slaveW, i, kind) && Wants(v.t, i, kind) then Call(v, i, kind, handler) else v
  }

  /** What the history holds since it had length `from`. */
  function Since(v: View, from: nat): (r: seq<Entry>)
    requires from <= |v.log|
  {
    v.log[from..]
  }

  /** Since then the history explains the registrations and every call in it was justified. */
  ghost predicate SafeSince(t: map<int, Interest>, v: View, from: nat, slaveR: set<int>, slaveW: set<int>) {
    from <= |v.log| && v.t == Replay(t, Since(v, from)) && Safe(t, slaveR, slaveW, Since(v, from))
  }

  lemma HappenedSince(before: seq<Entry>, after: seq<Entry>, from: nat, fd: int, kind: Kind)
    requires Happened(before, after, fd, kind) && from <= |before|
    ensures Happened(before[from..], after[from..], fd, kind)
    ensures after[from..][|before[from..]|..] == after[|before|..]
  {
    var b, a := before[from..], after[from..];
    assert forall k | 0 <= k < |a| :: a[k] == after[from + k];
    assert a[..|b|] == b;
  }

  lemma OfferServes(t: map<int, Interest>, v: View, from: nat, i: nat, kind: Kind, slaveR: set<int>, slaveW: set<int>,
      handler: Handler)
    requires SafeSince(t, v, from, slaveR, slaveW)
    ensures var u := Offer(v, i, kind, slaveR, slaveW, handler);
      && v.log <= u.log && SafeSince(t, u, from, slaveR, slaveW)
      && Served(t, slaveR, slaveW, Since(v, from), Since(u, from), i, kind)
  {
    if Ready(slaveR, slaveW, i, kind) && Wants(v.t, i, kind) {
      var u := Call(v, i, kind, handler);
      CallHappens(v, i, kind, handler);
      HappenedSince(v.log, u.log, from, i, kind);
      CallAppended(t, slaveR, slaveW, Since(v, from), Since(u, from), i, kind);
    }
  }

  /** A visit that reads no stale memory offers both kinds by the table. */
  lemma VisitOffers(v: View, i: nat, slaveR: set<int>, slaveW: set<int>, handler: Handler, junk: int -> bool)
    requires i in v.t && !Stale(v, i, slaveR, slaveW, handler)
    ensures VisitOf(v, i, slaveR, slaveW, handler, junk) ==
            Offer(Offer(v, i, Reading, slaveR, slaveW, handler), i, Writing, slaveR, slaveW, handler)
  {
    hide Call;
  }

  lemma VisitServes(t: map<int, Interest>, v: View, from: nat, i: nat, slaveR: set<int>, slaveW: set<int>, handler: Handler,
      junk: int -> bool)
    requires SafeSince(t, v, from, slaveR, slaveW) && ServedBelow(t, slaveR, slaveW, Since(v, from), i)
    requires !Stale(v, i, slaveR, slaveW, handler)
    ensures var u := VisitOf(v, i, slaveR, slaveW, handler, junk);
      && v.log <= u.log && SafeSince(t, u, from, slaveR, slaveW)
      && ServedBelow(t, slaveR, slaveW, Since(u, from), i + 1)
  {
    if i in v.t {
      hide Call;
      VisitOffers(v, i, slaveR, slaveW, handler, junk);
      var r := Offer(v, i, Reading, slaveR, slaveW, handler);
      var u := Offer(r, i, Writing, slaveR, slaveW, handler);
      OfferServes(t, v, from, i, Reading, slaveR, slaveW, handler);
      OfferServes(t, r, from, i, Writing, slaveR, slaveW, handler);
      hide Offer;
      hide VisitOf;
      hide SafeSince;
      SincePrefix(v, r, from);
      SincePrefix(r, u, from);
      ServedOne(t, slaveR, slaveW, Since(v, from), Since(r, from), Since(u, from), i);
    } else {
      ServedOne(t, slaveR, slaveW, Since(v, from), Since(v, from), Since(v, from), i);
    }
  }

  lemma SincePrefix(v: View, u: View, from: nat)
    requires from <= |v.log| && v.log <= u.log
    ensures Since(v, from) <= Since(u, from)
  {
  }

  /** No read handler of a descriptor that is ready for writing made the table grow. */
  ghost predicate NoStale(v: View, n: nat, slaveR: set<int>, slaveW: set<int>, handler: Handler, junk: int -> bool) {
    forall i: nat | i < n :: !StaleAt(v, i, slaveR, slaveW, handler, junk)
  }

  ghost predicate StaleAt(v: View, i: nat, slaveR: set<int>, slaveW: set<int>, handler: Handler, junk: int -> bool) {
    Stale(Iterate(v, i, slaveR, slaveW, handler, junk), i, slaveR, slaveW, handler)
  }

  lemma {:induction false} IterateServes(v: View, n: nat, slaveR: set<int>, slaveW: set<int>, handler: Handler, junk: int -> bool)
    requires NoStale(v, n, slaveR, slaveW, handler, junk)
    ensures var u := Iterate(v, n, slaveR, slaveW, handler, junk);
      && v.log <= u.log && SafeSince(v.t, u, |v.log|, slaveR, slaveW)
      && ServedBelow(v.t, slaveR, slaveW, Since(u, |v.log|), n)
  {
    if n > 0 {
      hide VisitOf;
      hide SafeSince;
      hide ServedBelow;
      IterateServes(v, n - 1, slaveR, slaveW, handler, junk);
      assert !StaleAt(v, n - 1, slaveR, slaveW, handler, junk);
      VisitServes(v.t, Iterate(v, n - 1, slaveR, slaveW, handler, junk), |v.log|, n - 1, slaveR, slaveW, handler, junk);
    }
  }

  /** Dispatch safety and completeness, for callbacks that do anything but make the table grow under a descriptor that is
      ready for both, and whatever happened before: in the part of the history that this dispatch adds, every call is to a
      descriptor ready in the snapshot and registered with that interest at that moment, none is made twice, and every ready
      descriptor no callback touched is served once per kind. */
  lemma DispatchSafeAndComplete(v: View, n: nat, slaveR: set<int>, slaveW: set<int>, handler: Handler, junk: int -> bool)
    requires NoStale(v, n, slaveR, slaveW, handler, junk)
    requires forall fd | fd in v.t :: 0 <= fd < n
    ensures var u := Iterate(v, n, slaveR, slaveW, handler, junk);
      && v.log <= u.log && u.t == Replay(v.t, u.log[|v.log|..])
      && Safe(v.t, slaveR, slaveW, u.log[|v.log|..]) && Complete(v.t, slaveR, slaveW, u.log[|v.log|..])
  {
    IterateServes(v, n, slaveR, slaveW, handler, junk);
    hide Iterate;
  }

  /** The same told by the sets that select was given: a read call goes to a descriptor that select reported readable and that
      is in the read set at that moment, a write call likewise, and what is reported, in its set and untouched is called. */
  lemma DispatchBySets(v: View, n: nat, slaveR: set<int>, slaveW: set<int>, handler: Handler, junk: int -> bool)
    requires NoStale(v, n, slaveR, slaveW, handler, junk)
    requires forall fd | fd in v.t :: 0 <= fd < n
    ensures var log := Iterate(v, n, slaveR, slaveW, handler, junk).log;
      && v.log <= log
      && (forall k | |v.log| <= k < |log| && log[k].Called? ::
            var t, fd := Replay(v.t, log[|v.log|..k]), log[k].fd;
            if log[k].kind == Reading then fd in slaveR && fd in Readers(t) else fd in slaveW && fd in Writers(t))
      && (forall fd | Untouched(log[|v.log|..], fd) && fd in slaveR && fd in Readers(v.t) :: Calls(log[|v.log|..], fd, Reading) == 1)
      && (forall fd | Untouched(log[|v.log|..], fd) && fd in slaveW && fd in Writers(v.t) :: Calls(log[|v.log|..], fd, Writing) == 1)
  {
    DispatchSafeAndComplete(v, n, slaveR, slaveW, handler, junk);
    var log := Iterate(v, n, slaveR, slaveW, handler, junk).log;
    hide Iterate;
    hide Replay;
    var added := log[|v.log|..];
    forall k | |v.log| <= k < |log| && log[k].Called?
      ensures var t, fd := Replay(v.t, log[|v.log|..k]), log[k].fd;
        if log[k].kind == Reading then fd in slaveR && fd in Readers(t) else fd in slaveW && fd in Writers(t)
    {
      assert added[k - |v.log|] == log[k] && added[..k - |v.log|] == log[|v.log|..k];
    }
  }

  // ---------------------------------------------------------------------------------------------
  // The order of the calls.

  predicate Precedes(a: Entry, b: Entry) {
    a.Called? && b.Called? ==> a.fd < b.fd || (a.fd == b.fd && a.kind == Reading && b.kind == Writing)
  }

  ghost predicate InOrder(log: seq<Entry>, from: nat) {
    forall k, l | from <= k < l < |log| :: Precedes(log[k], log[l])
  }

  /** Every call since then precedes this one. */
  ghost predicate AllBefore(log: seq<Entry>, from: nat, next: Entry) {
    forall k | from <= k < |log| :: Precedes(log[k], next)
  }

  lemma CallInOrder(v: View, from: nat, fd: int, kind: Kind, handler: Handler)
    requires InOrder(v.log, from) && AllBefore(v.log, from, Called(fd, kind)) && from <= |v.log|
    ensures var u := Call(v, fd, kind, handler);
      && v.log <= u.log && InOrder(u.log, from)
      && forall next: Entry | Precedes(Called(fd, kind), next) && AllBefore(v.log, from, next) :: AllBefore(u.log, from, next)
  {
    CallHappens(v, fd, kind, handler);
    var log := Call(v, fd, kind, handler).log;
    assert forall k | 0 <= k < |v.log| :: log[k] == v.log[k];
  }

  lemma VisitInOrder(v: View, from: nat, i: nat, slaveR: set<int>, slaveW: set<int>, handler: Handler, junk: int -> bool)
    requires InOrder(v.log, from) && from <= |v.log| && AllBefore(v.log, from, Called(i, Reading))
    ensures var u := VisitOf(v, i, slaveR, slaveW, handler, junk);
      v.log <= u.log && InOrder(u.log, from) && AllBefore(u.log, from, Called(i + 1, Reading))
  {
    var r := AfterRead(v, i, slaveR, handler);
    CallInOrder(v, from, i, Reading, handler);
    assert AllBefore(v.log, from, Called(i, Writing)) && AllBefore(v.log, from, Called(i + 1, Reading));
    assert AllBefore(r.log, from, Called(i, Writing)) && AllBefore(r.log, from, Called(i + 1, Reading));
    CallInOrder(r, from, i, Writing, handler);
    hide Call;
  }

  /** A dispatch calls in ascending order of the descriptors, and each for reading before writing, whatever the callbacks do. */
  lemma {:induction false} CallsInOrder(v: View, n: nat, slaveR: set<int>, slaveW: set<int>, handler: Handler, junk: int -> bool)
    ensures var u := Iterate(v, n, slaveR, slaveW, handler, junk);
      v.log <= u.log && InOrder(u.log, |v.log|) && AllBefore(u.log, |v.log|, Called(n, Reading))
  {
    if n > 0 {
      hide VisitOf;
      hide InOrder;
      hide AllBefore;
      CallsInOrder(v, n - 1, slaveR, slaveW, handler, junk);
      VisitInOrder(Iterate(v, n - 1, slaveR, slaveW, handler, junk), |v.log|, n - 1, slaveR, slaveW, handler, junk);
    }
  }

  /** Descriptors registered for one kind at a time are never in both sets of a snapshot. Then no visit meets memory that the
      table has left, whatever the callbacks do. */
  lemma OneKindIsNeverStale(v: View, n: nat, slaveR: set<int>, slaveW: set<int>, handler: Handler, junk: int -> bool)
    requires slaveR !! slaveW
    ensures NoStale(v, n, slaveR, slaveW, handler, junk)
  {
    hide Iterate;
    hide Call;
  }

  lemma KindsApart(t: map<int, Interest>, slaveR: set<int>, slaveW: set<int>)
    requires forall fd | fd in t :: !(t[fd].read && t[fd].write)
    requires slaveR <= Readers(t) && slaveW <= Writers(t)
    ensures slaveR !! slaveW
  {
    forall fd | fd in slaveR
      ensures fd !in slaveW
    {
      assert fd in Readers(t);
      assert fd !in Writers(t);
    }
  }

  /** So the dispatch is safe and complete for every snapshot of a table in which nothing is registered for both kinds. */
  lemma OneKindDispatch(v: View, n: nat, slaveR: set<int>, slaveW: set<int>, handler: Handler, junk: int -> bool)
    requires (forall fd | fd in v.t :: 0 <= fd < n && !(v.t[fd].read && v.t[fd].write))
    requires slaveR <= Readers(v.t) && slaveW <= Writers(v.t)
    ensures var u := Iterate(v, n, slaveR, slaveW, handler, junk);
      && v.log <= u.log && Safe(v.t, slaveR, slaveW, u.log[|v.log|..]) && Complete(v.t, slaveR, slaveW, u.log[|v.log|..])
  {
    KindsApart(v.t, slaveR, slaveW);
    OneKindIsNeverStale(v, n, slaveR, slaveW, handler, junk);
    DispatchSafeAndComplete(v, n, slaveR, slaveW, handler, junk);
    hide Iterate;
    hide NoStale;
    hide Safe;
    hide Complete;
  }

  /** A visit calls no other descriptor. */
  lemma OtherVisit(v: View, i: nat, fd: int, kind: Kind, slaveR: set<int>, slaveW: set<int>, handler: Handler, junk: int -> bool)
    requires fd != i
    ensures Calls(VisitOf(v, i, slaveR, slaveW, handler, junk).log, fd, kind) == Calls(v.log, fd, kind)
  {
    var r := AfterRead(v, i, slaveR, handler);
    CallHappens(v, i, Reading, handler);
    CallCounted(v.log, Call(v, i, Reading, handler).log, i, Reading);
    CallHappens(r, i, Writing, handler);
    CallCounted(r.log, Call(r, i, Writing, handler).log, i, Writing);
    hide Call;
    hide Calls;
  }

  lemma {:induction false} LaterVisits(v: View, m: nat, n: nat, fd: nat, kind: Kind, slaveR: set<int>, slaveW: set<int>,
      handler: Handler, junk: int -> bool)
    requires fd < m <= n
    ensures Calls(Iterate(v, n, slaveR, slaveW, handler, junk).log, fd, kind) ==
            Calls(Iterate(v, m, slaveR, slaveW, handler, junk).log, fd, kind)
  {
    if m < n {
      LaterVisits(v, m, n - 1, fd, kind, slaveR, slaveW, handler, junk);
      hide VisitOf;
      hide Calls;
      OtherVisit(Iterate(v, n - 1, slaveR, slaveW, handler, junk), n - 1, fd, kind, slaveR, slaveW, handler, junk);
    }
  }

  /** A stale visit makes its write call or not as the memory happens to read. */
  lemma StaleVisit(v: View, i: nat, slaveR: set<int>, slaveW: set<int>, handler: Handler, junk: int -> bool, other: int -> bool)
    requires Stale(v, i, slaveR, slaveW, handler) && junk(i) != other(i)
    ensures Calls(VisitOf(v, i, slaveR, slaveW, handler, junk).log, i, Writing) !=
            Calls(VisitOf(v, i, slaveR, slaveW, handler, other).log, i, Writing)
  {
    var r := AfterRead(v, i, slaveR, handler);
    CallHappens(r, i, Writing, handler);
    CallCounted(r.log, Call(r, i, Writing, handler).log, i, Writing);
    hide Calls;
    hide Call;
  }

  lemma {:induction false} SameUntilStale(v: View, n: nat, slaveR: set<int>, slaveW: set<int>, handler: Handler, junk: int -> bool,
      other: int -> bool)
    requires NoStale(v, n, slaveR, slaveW, handler, junk)
    ensures Iterate(v, n, slaveR, slaveW, handler, junk) == Iterate(v, n, slaveR, slaveW, handler, other)
  {
    if n > 0 {
      SameUntilStale(v, n - 1, slaveR, slaveW, handler, junk, other);
      assert !StaleAt(v, n - 1, slaveR, slaveW, handler, junk);
      var w := Iterate(v, n - 1, slaveR, slaveW, handler, junk);
      if n - 1 in w.t {
        VisitOffers(w, n - 1, slaveR, slaveW, handler, junk);
        VisitOffers(w, n - 1, slaveR, slaveW, handler, other);
      }
      hide Call;
    }
  }

  lemma {:induction false} FirstStale(v: View, n: nat, slaveR: set<int>, slaveW: set<int>, handler: Handler, junk: int -> bool)
    returns (i: nat)
    requires !NoStale(v, n, slaveR, slaveW, handler, junk)
    ensures i < n && StaleAt(v, i, slaveR, slaveW, handler, junk) && NoStale(v, i, slaveR, slaveW, handler, junk)
  {
    hide StaleAt;
    if NoStale(v, n - 1, slaveR, slaveW, handler, junk) {
      i := n - 1;
    } else {
      i := FirstStale(v, n - 1, slaveR, slaveW, handler, junk);
    }
  }

  /** Exactly then the dispatch does not depend on what the memory that the table left happens to hold. */
  lemma DeterminedExactly(v: View, n: nat, slaveR: set<int>, slaveW: set<int>, handler: Handler, junk: int -> bool)
    ensures NoStale(v, n, slaveR, slaveW, handler, junk) <==>
            forall other: int -> bool ::
              Iterate(v, n, slaveR, slaveW, handler, junk) == Iterate(v, n, slaveR, slaveW, handler, other)
  {
    if NoStale(v, n, slaveR, slaveW, handler, junk) {
      forall other: int -> bool
        ensures Iterate(v, n, slaveR, slaveW, handler, junk) == Iterate(v, n, slaveR, slaveW, handler, other)
      {
        SameUntilStale(v, n, slaveR, slaveW, handler, junk, other);
      }
    } else {
      var other := Flipped(junk);
      var i := FirstStale(v, n, slaveR, slaveW, handler, junk);
      DiffersAt(v, i, n, slaveR, slaveW, handler, junk, other);
    }
  }

  function Flipped(junk: int -> bool): (other: int -> bool)
    ensures forall i :: other(i) != junk(i)
  {
    x => !junk(x)
  }

  lemma DiffersAt(v: View, i: nat, n: nat, slaveR: set<int>, slaveW: set<int>, handler: Handler, junk: int -> bool, other: int -> bool)
    requires i < n && StaleAt(v, i, slaveR, slaveW, handler, junk) && NoStale(v, i, slaveR, slaveW, handler, junk)
    requires junk(i) != other(i)
    ensures Iterate(v, n, slaveR, slaveW, handler, junk) != Iterate(v, n, slaveR, slaveW, handler, other)
  {
    SameUntilStale(v, i, slaveR, slaveW, handler, junk, other);
    StaleVisit(Iterate(v, i, slaveR, slaveW, handler, junk), i, slaveR, slaveW, handler, junk, other);
    LaterVisits(v, i + 1, n, i, Writing, slaveR, slaveW, handler, junk);
    LaterVisits(v, i + 1, n, i, Writing, slaveR, slaveW, handler, other);
    hide VisitOf;
    hide Calls;
  }

  // ---------------------------------------------------------------------------------------------
  // A read handler that makes the table grow.

  const BOTH := Interest(true, true)

  /** Descriptor 3 in a table of 17 slots, ready for both. */
  function Three(): View {
    View(map[3 := BOTH], 17, [])
  }

  /** On reading it registers descriptor 20, for which the table has to grow. */
  function Opens20(): Handler {
    (fd, kind, log) => if kind == Reading then [OpRegister(20, BOTH)] else []
  }

  /** On reading it first unregisters itself. */
  function Leaves(): Handler {
    (fd, kind, log) => if kind == Reading then [OpUnregister(3), OpRegister(20, BOTH)] else []
  }

  lemma EmptySlots(handler: Handler, junk: int -> bool)
    ensures Iterate(Three(), 3, {3}, {3}, handler, junk) == Three()
  {
    assert Iterate(Three(), 1, {3}, {3}, handler, junk) == Three();
    assert Iterate(Three(), 2, {3}, {3}, handler, junk) == Three();
  }

  /** The slot's old memory reads as nothing: descriptor 3, which no callback touched, is not served for writing. */
  lemma GrowthLosesWrite()
    ensures var junk: int -> bool := x => false;
      var u := Iterate(Three(), 4, {3}, {3}, Opens20(), junk);
      StaleAt(Three(), 3, {3}, {3}, Opens20(), junk) && Untouched(u.log, 3) && !Complete(Three().t, {3}, {3}, u.log)
  {
    var junk: int -> bool := x => false;
    EmptySlots(Opens20(), junk);
    FirstSizes();
    var v, called := Three(), Three().(log := [Called(3, Reading)]);
    assert [] + [Called(3, Reading)] == [Called(3, Reading)];
    var op := OpRegister(20, BOTH);
    DoNone(called, [op]);
    DoOne(called, [op], 0);
    assert [op][..1] == [op];
    hide DoAll;
    var u := Call(v, 3, Reading, Opens20());
    assert u.log == [Called(3, Reading)] + [Did(op)] && u.size == 33;
    NoWriteCall(u.log, op);
    hide Calls;
    assert Iterate(v, 4, {3}, {3}, Opens20(), junk) == u;
  }

  lemma NoWriteCall(log: seq<Entry>, op: Op)
    requires log == [Called(3, Reading)] + [Did(op)]
    ensures Calls(log, 3, Writing) == 0
  {
    assert log[..1] == [Called(3, Reading)] && log[..1][..0] == [];
    assert Calls(log[..1][..0], 3, Writing) == 0 && Calls(log[..1], 3, Writing) == 0;
  }

  /** It reads as an interest: descriptor 3 is called for writing after its own read handler unregistered it. */
  lemma GrowthMakesUnsafe()
    ensures var junk: int -> bool := x => true;
      !Safe(Three().t, {3}, {3}, Iterate(Three(), 4, {3}, {3}, Leaves(), junk).log)
  {
    var junk: int -> bool := x => true;
    EmptySlots(Leaves(), junk);
    FirstSizes();
    var v, called := Three(), Three().(log := [Called(3, Reading)]);
    assert [] + [Called(3, Reading)] == [Called(3, Reading)];
    var a, b := OpUnregister(3), OpRegister(20, BOTH);
    var ops := [a, b];
    DoNone(called, ops);
    DoOne(called, ops, 0);
    DoOne(called, ops, 1);
    assert ops[..2] == ops;
    var r := Call(v, 3, Reading, Leaves());
    assert r.size == 33 && r.log == [Called(3, Reading)] + [Did(a)] + [Did(b)] && 3 !in r.t;
    CallHappens(v, 3, Reading, Leaves());
    assert r.log[|v.log|..] == r.log;
    CallHappens(r, 3, Writing, Leaves());
    var u := Iterate(v, 4, {3}, {3}, Leaves(), junk);
    assert u == Call(r, 3, Writing, Leaves());
    assert u.log[..3] == r.log && u.log[3] == Called(3, Writing);
  }
}
