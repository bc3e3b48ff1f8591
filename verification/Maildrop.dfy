/** email.c: the mails of a user's directory, their deletion marks and the totals kept beside them. */
module Maildrop {
  import opened Bytes

  const MAX_MAILS: nat := 30

  /** A directory entry and the size `stat` reports for it. */
  datatype Entry = Entry(name: Str, size: nat)

  datatype Mail = Mail(path: Str, size: nat)

  predicate Hidden(name: Str) {
    name == [DOT] || name == [DOT, DOT]
  }

  /** The entries that are mails, in directory order. */
  function Visible(prefix: Str, dir: seq<Entry>): seq<Mail> {
    if dir == [] then []
    else
      var e := dir[|dir| - 1];
      Visible(prefix, dir[..|dir| - 1]) + if Hidden(e.name) then [] else [Mail(prefix + e.name, e.size)]
  }

  /** The mails a session sees: the first thirty. */
  function Listing(prefix: Str, dir: seq<Entry>): (l: seq<Mail>)
    ensures |l| <= MAX_MAILS
  {
    var all := Visible(prefix, dir);
    all[..Min(|all|, MAX_MAILS)]
  }

  /** Position `at[k]` of the directory holds mail `k`, and every position outside `at` one of the two names for directories. */
  ghost predicate AreMails(at: seq<nat>, mails: seq<Mail>, prefix: Str, dir: seq<Entry>) {
    && |at| == |mails|
    && (forall j, k | 0 <= j < k < |at| :: at[j] < at[k])
    && (forall k | 0 <= k < |at| :: at[k] < |dir| && mails[k] == Mail(prefix + dir[at[k]].name, dir[at[k]].size))
    && (forall i: nat | i < |dir| :: i in at <==> dir[i].name != Text(".") && dir[i].name != Text(".."))
  }

  /** The mails are the entries of the directory other than `.` and `..`, each once, in order, with their sizes. */
  lemma {:induction false} VisibleExactly(prefix: Str, dir: seq<Entry>) returns (at: seq<nat>)
    ensures AreMails(at, Visible(prefix, dir), prefix, dir)
  {
    at := [];
    if dir != [] {
      var init, e := dir[..|dir| - 1], dir[|dir| - 1];
      at := VisibleExactly(prefix, init);
      DotNames();
      if !Hidden(e.name) {
        OneMoreMail(at, Visible(prefix, init), prefix, init, e);
        at := at + [|init|];
      } else {
        assert Visible(prefix, init) + [] == Visible(prefix, init);
      }
      assert dir == init + [e];
    }
  }

  lemma DotNames()
    ensures Text(".") == [DOT] && Text("..") == [DOT, DOT]
  {
  }

  lemma OneMoreMail(at: seq<nat>, mails: seq<Mail>, prefix: Str, dir: seq<Entry>, e: Entry)
    requires AreMails(at, mails, prefix, dir) && e.name != Text(".") && e.name != Text("..")
    ensures AreMails(at + [|dir|], mails + [Mail(prefix + e.name, e.size)], prefix, dir + [e])
  {
    hide Text;
    var more, all := at + [|dir|], dir + [e];
    assert more[|at|] == |dir|;
    forall i: nat | i < |all|
      ensures i in more <==> all[i].name != Text(".") && all[i].name != Text("..")
    {
      assert i in more <==> i in at || i == |dir|;
      if i in at {
        var k :| 0 <= k < |at| && at[k] == i;
      }
    }
  }

  lemma {:induction false} VisiblePrefix(prefix: Str, dir: seq<Entry>, k: nat)
    requires k <= |dir|
    ensures Visible(prefix, dir[..k]) <= Visible(prefix, dir)
  {
    if k < |dir| {
      var init := dir[..|dir| - 1];
      assert init[..k] == dir[..k];
      VisiblePrefix(prefix, init, k);
    } else {
      assert dir[..k] == dir;
    }
  }

  lemma VisibleStep(prefix: Str, dir: seq<Entry>, k: nat)
    requires k < |dir|
    ensures Visible(prefix, dir[..k + 1]) ==
            Visible(prefix, dir[..k]) + if Hidden(dir[k].name) then [] else [Mail(prefix + dir[k].name, dir[k].size)]
  {
    assert dir[..k + 1][..k] == dir[..k];
  }

  /** The mailbox fields of a session. */
  datatype Box = Box(mails: seq<Mail>, dele: seq<bool>, qty: nat, maxIndex: nat, total: nat, original: nat)

  /** calloc */
  function Fresh(): Box {
    Box([], NoMarks(), 0, 0, 0, 0)
  }

  function NoMarks(): (dele: seq<bool>)
    ensures |dele| == MAX_MAILS && forall i | 0 <= i < MAX_MAILS :: !dele[i]
  {
    seq(MAX_MAILS, i => false)
  }

  /** How many of the first `n` mails are unmarked. */
  function Live(dele: seq<bool>, n: nat): (k: nat)
    requires n <= |dele|
    ensures k <= n
  {
    if n == 0 then 0 else Live(dele, n - 1) + if dele[n - 1] then 0 else 1
  }

  /** The sizes of the unmarked among the first `n` mails, summed. */
  function Octets(mails: seq<Mail>, dele: seq<bool>, n: nat): nat
    requires n <= |dele| && n <= |mails|
  {
    if n == 0 then 0 else Octets(mails, dele, n - 1) + if dele[n - 1] then 0 else mails[n - 1].size
  }

  /** The octets of all mails. */
  function AllOctets(mails: seq<Mail>): nat {
    if mails == [] then 0 else AllOctets(mails[..|mails| - 1]) + mails[|mails| - 1].size
  }

  lemma {:induction false} NothingMarked(mails: seq<Mail>, dele: seq<bool>, n: nat)
    requires n <= |mails| && n <= |dele| && forall i | 0 <= i < n :: !dele[i]
    ensures Live(dele, n) == n && Octets(mails, dele, n) == AllOctets(mails[..n])
  {
    if n > 0 {
      NothingMarked(mails, dele, n - 1);
      assert mails[..n][..n - 1] == mails[..n - 1];
    }
  }

  /** load_mails: everything but the marks is taken afresh from the directory. */
  function Load(box: Box, listing: seq<Mail>): Box
    requires 0 < |listing| <= |box.dele|
  {
    var n := |listing|;
    var total := Octets(listing, box.dele, n);
    Box(listing, box.dele, Live(box.dele, n), n - 1, total, total)
  }

  // ---------------------------------------------------------------------------------------------
  // Marks as a set of message indices.

  /** The messages that are left of a maildrop. */
  function Remaining(n: nat, marks: set<nat>): set<nat> {
    set i: nat | 0 <= i < n && i !in marks
  }

  function SizeOf(listing: seq<Mail>, s: set<nat>): nat
    requires forall i | i in s :: i < |listing|
  {
    SumSizes(listing, s, |listing|)
  }

  function SumSizes(listing: seq<Mail>, s: set<nat>, n: nat): nat
    requires n <= |listing|
  {
    if n == 0 then 0 else SumSizes(listing, s, n - 1) + if n - 1 in s then listing[n - 1].size else 0
  }

  ghost predicate MarksAre(dele: seq<bool>, marks: set<nat>) {
    && (forall i | 0 <= i < |dele| :: dele[i] <==> i in marks)
    && (forall i | i in marks :: i < |dele|)
  }

  /** The counters are those of the set of messages left. */
  lemma {:induction false} CountersOfMarks(mails: seq<Mail>, dele: seq<bool>, marks: set<nat>, n: nat)
    requires MarksAre(dele, marks) && n <= |dele| && n <= |mails|
    ensures Live(dele, n) == |Remaining(n, marks)|
    ensures Octets(mails, dele, n) == SumSizes(mails, Remaining(|mails|, marks), n)
  {
    if n > 0 {
      CountersOfMarks(mails, dele, marks, n - 1);
      var before, after := Remaining(n - 1, marks), Remaining(n, marks);
      if dele[n - 1] {
        assert after == before;
      } else {
        assert after == before + {n - 1};
      }
      assert n - 1 in Remaining(|mails|, marks) <==> n - 1 !in marks;
    }
  }

  /** What LIST prints: number and size of every unmarked message. */
  datatype Row = Row(number: nat, size: nat)

  function Rows(mails: seq<Mail>, dele: seq<bool>, n: nat): seq<Row>
    requires n <= |dele| && n <= |mails|
  {
    if n == 0 then [] else Rows(mails, dele, n - 1) + if dele[n - 1] then [] else [Row(n, mails[n - 1].size)]
  }

  function RowOctets(rows: seq<Row>): nat {
    if rows == [] then 0 else RowOctets(rows[..|rows| - 1]) + rows[|rows| - 1].size
  }

  /** LIST's rows add up to the counters STAT gives. */
  lemma {:induction false} RowsAddUp(mails: seq<Mail>, dele: seq<bool>, n: nat)
    requires n <= |dele| && n <= |mails|
    ensures |Rows(mails, dele, n)| == Live(dele, n) && RowOctets(Rows(mails, dele, n)) == Octets(mails, dele, n)
  {
    if n > 0 {
      RowsAddUp(mails, dele, n - 1);
      var before, row := Rows(mails, dele, n - 1), Row(n, mails[n - 1].size);
      assert (before + [row])[..|before|] == before && before + [] == before;
    }
  }

  /** The rows are the unmarked messages, in order and once each, numbered by position whatever is marked. */
  ghost predicate Lists(rows: seq<Row>, mails: seq<Mail>, dele: seq<bool>, n: nat)
    requires n <= |dele| && n <= |mails|
  {
    && (forall k | 0 <= k < |rows| :: 1 <= rows[k].number <= n)
    && (forall k | 0 <= k < |rows| :: !dele[rows[k].number - 1] && rows[k].size == mails[rows[k].number - 1].size)
    && (forall j, k | 0 <= j < k < |rows| :: rows[j].number < rows[k].number)
    && (forall i | 0 <= i < n && !dele[i] :: Row(i + 1, mails[i].size) in rows)
  }

  lemma ListsStep(rows: seq<Row>, mails: seq<Mail>, dele: seq<bool>, n: nat)
    requires 0 < n <= |dele| && n <= |mails| && Lists(rows, mails, dele, n - 1)
    ensures dele[n - 1] ==> Lists(rows, mails, dele, n)
    ensures !dele[n - 1] ==> Lists(rows + [Row(n, mails[n - 1].size)], mails, dele, n)
  {
    if !dele[n - 1] {
      var row := Row(n, mails[n - 1].size);
      var after := rows + [row];
      assert after[|rows|] == row && forall k | 0 <= k < |rows| :: after[k] == rows[k];
      forall i | 0 <= i < n && !dele[i]
        ensures Row(i + 1, mails[i].size) in after
      {
        if i < n - 1 {
          assert Row(i + 1, mails[i].size) in rows;
        }
      }
    }
  }

  lemma {:induction false} RowsAreLive(mails: seq<Mail>, dele: seq<bool>, n: nat)
    requires n <= |dele| && n <= |mails|
    ensures Lists(Rows(mails, dele, n), mails, dele, n)
  {
    if n > 0 {
      RowsAreLive(mails, dele, n - 1);
      ListsStep(Rows(mails, dele, n - 1), mails, dele, n);
      assert Rows(mails, dele, n - 1) + [] == Rows(mails, dele, n - 1);
    }
  }

  /** The files `delete_mails` removes, in order. */
  function MarkedPaths(mails: seq<Mail>, dele: seq<bool>, n: nat): seq<Str>
    requires n <= |dele| && n <= |mails|
  {
    if n == 0 then [] else MarkedPaths(mails, dele, n - 1) + if dele[n - 1] then [mails[n - 1].path] else []
  }

  /** The same from a set of marks. */
  function PathsOf(mails: seq<Mail>, marks: set<nat>, n: nat): seq<Str>
    requires n <= |mails|
  {
    if n == 0 then [] else PathsOf(mails, marks, n - 1) + if n - 1 in marks then [mails[n - 1].path] else []
  }

  lemma {:induction false} PathsOfMarks(mails: seq<Mail>, dele: seq<bool>, marks: set<nat>, n: nat)
    requires MarksAre(dele, marks) && n <= |dele| && n <= |mails|
    ensures MarkedPaths(mails, dele, n) == PathsOf(mails, marks, n)
  {
    if n > 0 {
      PathsOfMarks(mails, dele, marks, n - 1);
    }
  }

  /** LIST's rows are exactly the messages left, with their number and octets in all. */
  lemma RowsAreRemaining(mails: seq<Mail>, dele: seq<bool>, marks: set<nat>)
    requires MarksAre(dele, marks) && |mails| <= |dele|
    ensures var left, rows := Remaining(|mails|, marks), Rows(mails, dele, |mails|);
      |rows| == |left| && RowOctets(rows) == SizeOf(mails, left) && Lists(rows, mails, dele, |mails|)
    ensures forall i: nat | i < |mails| :: dele[i] <==> i !in Remaining(|mails|, marks)
  {
    RowsAddUp(mails, dele, |mails|);
    RowsAreLive(mails, dele, |mails|);
    CountersOfMarks(mails, dele, marks, |mails|);
  }
}
