/**
  The partition table check (`validate` in tools/validate_partitions.py): rows are
  sorted, neighbours compared, and the required layout looked up by name.
*/
module Partitions {
  import opened CStrings

  const FLASH_SIZE := 0x2000000

  datatype Row = Row(name: string, offset: int, size: int) {
    function End(): int {
      offset + size
    }
  }

  datatype Range = Range(offset: int, size: int)
  datatype Required = Required(name: string, range: Range)

  const REQUIRED: seq<Required> := [
    Required("nvs", Range(0x9000, 0x5000)),
    Required("otadata", Range(0xE000, 0x2000)),
    Required("app0", Range(0x10000, 0x800000)),
    Required("app1", Range(0x810000, 0x800000)),
    Required("coredump", Range(0x1010000, 0x10000)),
    Required("littlefs", Range(0x1020000, 0xFE0000))
  ]

  /** The dictionary comprehension: the last row of a name counts. */
  function Actual(rows: seq<Row>, name: string): Option<Range> {
    if rows == [] then None
    else
      var last := rows[|rows| - 1];
      if last.name == name then Some(Range(last.offset, last.size)) else Actual(rows[..|rows| - 1], name)
  }

  /** Lexicographic order of strings, as Python compares them. */
  predicate StringLeq(a: string, b: string) {
    a == "" || (b != "" && (a[0] < b[0] || (a[0] == b[0] && StringLeq(a[1..], b[1..]))))
  }

  /** Order of the tuples (start, end, name). */
  predicate Leq(a: Row, b: Row) {
    a.offset < b.offset
    || (a.offset == b.offset && (a.End() < b.End() || (a.End() == b.End() && StringLeq(a.name, b.name))))
  }

  /** The built-in `sorted`, as far as its result shows: an insertion sort by the tuple order. */
  function Sorted(rows: seq<Row>): seq<Row> {
    if rows == [] then [] else Insert(rows[0], Sorted(rows[1..]))
  }

  function Insert(row: Row, rows: seq<Row>): seq<Row> {
    if rows == [] || Leq(row, rows[0]) then [row] + rows else [rows[0]] + Insert(row, rows[1..])
  }

  datatype Problem =
    | WrongRange(required: Required, actual: Option<Range>)
    | Overlap(first: string, second: string)
    | BeyondFlash(name: string, end: int)

  function MissingFrom(required: seq<Required>, rows: seq<Row>): seq<Problem> {
    if required == [] then []
    else
      var r, actual := required[0], Actual(rows, required[0].name);
      (if actual == Some(r.range) then [] else [WrongRange(r, actual)]) + MissingFrom(required[1..], rows)
  }

  function OverlapsIn(sorted: seq<Row>): seq<Problem> {
    if |sorted| < 2 then []
    else
      (if sorted[0].End() > sorted[1].offset then [Overlap(sorted[0].name, sorted[1].name)] else [])
      + OverlapsIn(sorted[1..])
  }

  function BeyondIn(rows: seq<Row>): seq<Problem> {
    if rows == [] then []
    else (if rows[0].End() > FLASH_SIZE then [BeyondFlash(rows[0].name, rows[0].End())] else []) + BeyondIn(rows[1..])
  }

  function Validate(rows: seq<Row>): seq<Problem> {
    MissingFrom(REQUIRED, rows) + OverlapsIn(Sorted(rows)) + BeyondIn(rows)
  }

  /** The three loops, each of which appends to one list of problems. */
  method CheckRequired(required: seq<Required>, rows: seq<Row>) returns (errors: seq<Problem>)
    ensures errors == MissingFrom(required, rows)
  {
    errors := [];
    assert required[0..] == required;
    for i := 0 to |required|
      invariant errors + MissingFrom(required[i..], rows) == MissingFrom(required, rows)
    {
      assert required[i..][1..] == required[i + 1..];
      var actual := Actual(rows, required[i].name);
      if actual != Some(required[i].range) {
        errors := errors + [WrongRange(required[i], actual)];
      }
    }
  }

  method CheckOverlaps(ranges: seq<Row>, before: seq<Problem>) returns (errors: seq<Problem>)
    ensures errors == before + OverlapsIn(ranges)
  {
    errors := before;
    var k := 0;
    assert ranges[0..] == ranges;
    while k + 1 < |ranges|
      invariant k <= |ranges|
      invariant errors + OverlapsIn(ranges[k..]) == before + OverlapsIn(ranges)
    {
      assert ranges[k..][1..] == ranges[k + 1..];
      if ranges[k].End() > ranges[k + 1].offset {
        errors := errors + [Overlap(ranges[k].name, ranges[k + 1].name)];
      }
      k := k + 1;
    }
  }

  method CheckEnds(rows: seq<Row>, before: seq<Problem>) returns (errors: seq<Problem>)
    ensures errors == before + BeyondIn(rows)
  {
    errors := before;
    assert rows[0..] == rows;
    for i := 0 to |rows|
      invariant errors + BeyondIn(rows[i..]) == before + BeyondIn(rows)
    {
      assert rows[i..][1..] == rows[i + 1..];
      if rows[i].End() > FLASH_SIZE {
        errors := errors + [BeyondFlash(rows[i].name, rows[i].End())];
      }
    }
  }

  method ValidateRows(rows: seq<Row>) returns (errors: seq<Problem>)
    ensures errors == Validate(rows)
  {
    hide REQUIRED, MissingFrom, OverlapsIn, BeyondIn, Sorted;
    errors := CheckRequired(REQUIRED, rows);
    errors := CheckOverlaps(Sorted(rows), errors);
    errors := CheckEnds(rows, errors);
  }

  predicate Ordered(rows: seq<Row>) {
    forall i :: 0 < i < |rows| ==>
      rows[i - 1].offset < rows[i].offset
      || (rows[i - 1].offset == rows[i].offset && rows[i - 1].End() <= rows[i].End())
  }

  lemma {:induction false} InsertMembers(row: Row, rows: seq<Row>)
    ensures multiset(Insert(row, rows)) == multiset(rows) + multiset{row}
    decreases |rows|
  {
    hide Leq;
    if rows != [] && !Leq(row, rows[0]) {
      InsertMembers(row, rows[1..]);
      assert rows == [rows[0]] + rows[1..];
    }
  }

  lemma {:induction false} InsertKeepsOrder(row: Row, rows: seq<Row>)
    requires Ordered(rows)
    ensures var r := Insert(row, rows);
            Ordered(r) && r != [] && (r[0] == row || (rows != [] && r[0] == rows[0]))
    decreases |rows|
  {
    hide Ordered, Leq;
    if rows == [] {
      OrderedCons(row, []);
    } else if Leq(row, rows[0]) {
      LeqOrders(row, rows[0]);
      OrderedCons(row, rows);
    } else {
      OrderedTail(rows);
      InsertKeepsOrder(row, rows[1..]);
      NotLeq(row, rows[0]);
      OrderedCons(rows[0], Insert(row, rows[1..]));
    }
  }

  lemma OrderedTail(rows: seq<Row>)
    requires Ordered(rows) && rows != []
    ensures Ordered(rows[1..])
    ensures |rows| > 1 ==> rows[0].offset < rows[1].offset
                           || (rows[0].offset == rows[1].offset && rows[0].End() <= rows[1].End())
  {
    var rest := rows[1..];
    assert forall i :: 0 < i < |rest| ==> rest[i] == rows[i + 1];
  }

  lemma LeqOrders(a: Row, b: Row)
    requires Leq(a, b)
    ensures a.offset < b.offset || (a.offset == b.offset && a.End() <= b.End())
  {
  }

  lemma NotLeq(a: Row, b: Row)
    requires !Leq(a, b)
    ensures b.offset < a.offset || (b.offset == a.offset && b.End() <= a.End())
  {
  }

  lemma OrderedCons(first: Row, rest: seq<Row>)
    requires rest == [] || Ordered(rest)
    requires rest != [] ==> first.offset < rest[0].offset
                            || (first.offset == rest[0].offset && first.End() <= rest[0].End())
    ensures Ordered([first] + rest)
  {
    var all := [first] + rest;
    assert forall i :: 0 < i < |all| ==> all[i] == rest[i - 1];
  }

  lemma {:induction false} SortedIsOrdered(rows: seq<Row>)
    ensures Ordered(Sorted(rows)) && multiset(Sorted(rows)) == multiset(rows) && |Sorted(rows)| == |rows|
    decreases |rows|
  {
    hide Ordered, Insert;
    if rows == [] {
      OrderedNothing();
    } else {
      SortedIsOrdered(rows[1..]);
      InsertKeepsOrder(rows[0], Sorted(rows[1..]));
      InsertMembers(rows[0], Sorted(rows[1..]));
      assert rows == [rows[0]] + rows[1..];
      assert |multiset(Sorted(rows))| == |multiset(rows)|;
    }
  }

  lemma OrderedNothing()
    ensures Ordered([])
  {
  }

  /** One of two rows ends before the other starts. */
  predicate Apart(a: Row, b: Row) {
    a.End() <= b.offset || b.End() <= a.offset
  }

  ghost predicate PairwiseApart(rows: seq<Row>) {
    forall i, j :: 0 <= i < j < |rows| ==> Apart(rows[i], rows[j])
  }

  /** What the check asks of two rows: the one that sorts first ends before the other starts. */
  predicate Clear(a: Row, b: Row) {
    (Leq(a, b) ==> a.End() <= b.offset) && (Leq(b, a) ==> b.End() <= a.offset)
  }

  ghost predicate PairwiseClear(rows: seq<Row>) {
    forall i, j :: 0 <= i < j < |rows| ==> Clear(rows[i], rows[j])
  }

  predicate Follows(rows: seq<Row>, i: nat)
    requires 0 < i < |rows|
  {
    rows[i - 1].End() <= rows[i].offset
  }

  ghost predicate Chained(rows: seq<Row>) {
    forall i :: 0 < i < |rows| ==> Follows(rows, i)
  }

  lemma {:induction false} NoOverlapReported(sorted: seq<Row>)
    ensures OverlapsIn(sorted) == [] <==> Chained(sorted)
    decreases |sorted|
  {
    if |sorted| >= 2 {
      var rest := sorted[1..];
      NoOverlapReported(rest);
      assert Follows(sorted, 1) <==> sorted[0].End() <= sorted[1].offset;
      forall i | 1 < i < |sorted|
        ensures Follows(sorted, i) == Follows(rest, i - 1)
      {
      }
      if Chained(sorted) {
        forall i | 0 < i < |rest|
          ensures Follows(rest, i)
        {
          assert Follows(sorted, i + 1);
        }
      }
    }
  }

  /** From neighbours to all pairs: a sorted list is ordered throughout. */
  lemma {:induction false} OrderedThroughout(rows: seq<Row>, i: nat, j: nat)
    requires Ordered(rows) && i <= j < |rows|
    ensures rows[i].offset < rows[j].offset
            || (rows[i].offset == rows[j].offset && rows[i].End() <= rows[j].End())
    decreases j
  {
    if i < j {
      OrderedThroughout(rows, i, j - 1);
    }
  }

  lemma ChainedIsClear(rows: seq<Row>)
    requires Ordered(rows) && Chained(rows)
    ensures PairwiseClear(rows)
  {
    forall i, j | 0 <= i < j < |rows|
      ensures Clear(rows[i], rows[j])
    {
      assert Follows(rows, i + 1);
      OrderedThroughout(rows, i + 1, j);
      OrderedThroughout(rows, i, j);
    }
  }

  lemma StringLeqIsTotal(a: string, b: string)
    ensures StringLeq(a, b) || StringLeq(b, a)
  {
  }

  lemma LeqIsTotal(a: Row, b: Row)
    ensures Leq(a, b) || Leq(b, a)
  {
    StringLeqIsTotal(a.name, b.name);
  }

  lemma ClearIsChained(rows: seq<Row>)
    requires Ordered(rows) && PairwiseClear(rows)
    ensures Chained(rows)
  {
    forall i | 0 < i < |rows|
      ensures Follows(rows, i)
    {
      assert Clear(rows[i - 1], rows[i]);
      LeqIsTotal(rows[i - 1], rows[i]);
    }
  }

  ghost predicate ClearOf(row: Row, rows: seq<Row>) {
    forall other <- rows :: Clear(row, other)
  }

  lemma ClearCons(first: Row, rest: seq<Row>)
    ensures PairwiseClear([first] + rest) <==> ClearOf(first, rest) && PairwiseClear(rest)
  {
    var all := [first] + rest;
    if PairwiseClear(all) {
      forall other | other in rest
        ensures Clear(first, other)
      {
        var j :| 0 <= j < |rest| && rest[j] == other;
        assert Clear(all[0], all[j + 1]);
      }
      forall i, j | 0 <= i < j < |rest|
        ensures Clear(rest[i], rest[j])
      {
        assert Clear(all[i + 1], all[j + 1]);
      }
    }
    if ClearOf(first, rest) && PairwiseClear(rest) {
      forall i, j | 0 <= i < j < |all|
        ensures Clear(all[i], all[j])
      {
        if i == 0 {
          assert all[j] in rest;
        } else {
          assert Clear(rest[i - 1], rest[j - 1]);
        }
      }
    }
  }

  lemma ClearOfCons(row: Row, first: Row, rest: seq<Row>)
    ensures ClearOf(row, [first] + rest) <==> Clear(row, first) && ClearOf(row, rest)
  {
    var all := [first] + rest;
    assert first in all && forall other <- rest :: other in all;
  }

  lemma {:induction false} InsertClear(row: Row, rows: seq<Row>)
    ensures PairwiseClear(Insert(row, rows)) <==> ClearOf(row, rows) && PairwiseClear(rows)
    decreases |rows|
  {
    hide PairwiseClear, Leq, ClearOf;
    ClearCons(row, rows);
    if rows != [] && !Leq(row, rows[0]) {
      var first, rest := rows[0], rows[1..];
      var inserted := Insert(row, rest);
      assert rows == [first] + rest;
      InsertClear(row, rest);
      ClearCons(first, inserted);
      ClearCons(first, rest);
      ClearOfCons(row, first, rest);
      ClearOfCons(first, row, rest);
      InsertMembers(row, rest);
      assert ClearOf(first, inserted) <==> ClearOf(first, [row] + rest) by {
        SameClear(first, inserted, [row] + rest);
      }
    }
  }

  lemma SameClear(row: Row, a: seq<Row>, b: seq<Row>)
    requires multiset(a) == multiset(b)
    ensures ClearOf(row, a) <==> ClearOf(row, b)
  {
    SameMembers(a, b);
  }

  lemma SameMembers(a: seq<Row>, b: seq<Row>)
    requires multiset(a) == multiset(b)
    ensures forall row :: row in a <==> row in b
  {
    forall row
      ensures row in a <==> row in b
    {
      assert row in a <==> row in multiset(a);
      assert row in b <==> row in multiset(b);
    }
  }

  /** The order in which rows are written does not matter. */
  lemma {:induction false} SortingKeepsClear(rows: seq<Row>)
    ensures PairwiseClear(Sorted(rows)) <==> PairwiseClear(rows)
    decreases |rows|
  {
    hide PairwiseClear, Insert, ClearOf;
    if rows != [] {
      var first, rest := rows[0], rows[1..];
      assert rows == [first] + rest;
      SortingKeepsClear(rest);
      SortedIsOrdered(rest);
      SameClear(first, Sorted(rest), rest);
      InsertClear(first, Sorted(rest));
      ClearCons(first, rest);
    }
  }

  lemma {:induction false} NothingMissing(required: seq<Required>, rows: seq<Row>)
    ensures MissingFrom(required, rows) == [] <==> forall r <- required :: Actual(rows, r.name) == Some(r.range)
    decreases |required|
  {
    hide Actual;
    if required != [] {
      NothingMissing(required[1..], rows);
      assert required == [required[0]] + required[1..];
    }
  }

  lemma {:induction false} NothingBeyond(rows: seq<Row>)
    ensures BeyondIn(rows) == [] <==> forall row <- rows :: row.End() <= FLASH_SIZE
    decreases |rows|
  {
    if rows != [] {
      NothingBeyond(rows[1..]);
      assert rows == [rows[0]] + rows[1..];
    }
  }

  /** Row `i` is the last one with a name. */
  ghost predicate LastNamed(rows: seq<Row>, name: string, i: nat) {
    i < |rows| && rows[i].name == name && forall j :: i < j < |rows| ==> rows[j].name != name
  }

  /** What the dictionary holds for a name: the last row that has it. */
  lemma {:induction false} ActualIsLast(rows: seq<Row>, name: string) returns (i: nat)
    ensures Actual(rows, name).None? <==> forall row <- rows :: row.name != name
    ensures Actual(rows, name).Some? ==>
              LastNamed(rows, name, i) && Actual(rows, name).value == Range(rows[i].offset, rows[i].size)
    decreases |rows|
  {
    i := 0;
    if rows != [] {
      var n := |rows| - 1;
      var before := rows[..n];
      assert rows == before + [rows[n]];
      assert rows[n] in rows && forall row <- before :: row in rows;
      if rows[n].name == name {
        i := n;
      } else {
        i := ActualIsLast(before, name);
        assert forall j :: 0 <= j < n ==> rows[j] == before[j];
      }
    }
  }

  /** No overlap is reported exactly when of any two rows the one that sorts first ends before the other starts. */
  lemma NoOverlapIff(rows: seq<Row>)
    ensures OverlapsIn(Sorted(rows)) == [] <==> PairwiseClear(rows)
  {
    hide Sorted, PairwiseClear, OverlapsIn, Ordered, Chained;
    SortedIsOrdered(rows);
    NoOverlapReported(Sorted(rows));
    SortingKeepsClear(rows);
    if PairwiseClear(rows) {
      ClearIsChained(Sorted(rows));
    }
    if Chained(Sorted(rows)) {
      ChainedIsClear(Sorted(rows));
    }
  }

  lemma ClearIsApart(a: Row, b: Row)
    requires Clear(a, b)
    ensures Apart(a, b)
  {
    LeqIsTotal(a, b);
  }

  /** Of two rows that are apart, `b` has a negative size and starts inside `a`, but ends at or before its start. */
  predicate Backwards(a: Row, b: Row) {
    b.size < 0 && a.offset < b.offset < a.End() && b.End() <= a.offset
  }

  lemma ApartButNotClear(a: Row, b: Row)
    requires Apart(a, b)
    ensures Clear(a, b) <==> !Backwards(a, b) && !Backwards(b, a)
  {
  }

  ghost predicate SomeBackwards(rows: seq<Row>) {
    exists i, j :: 0 <= i < |rows| && 0 <= j < |rows| && Backwards(rows[i], rows[j])
  }

  /**
    The exact condition under which rows that are apart are reported as overlapping:
    some row of negative size starts inside another and ends at or before that one's start.
  */
  lemma MisjudgedIffBackwards(rows: seq<Row>)
    requires PairwiseApart(rows)
    ensures OverlapsIn(Sorted(rows)) != [] <==> SomeBackwards(rows)
  {
    hide Sorted, OverlapsIn, Clear;
    NoOverlapIff(rows);
    forall i, j | 0 <= i < j < |rows|
      ensures Clear(rows[i], rows[j]) <==> !Backwards(rows[i], rows[j]) && !Backwards(rows[j], rows[i])
    {
      assert Apart(rows[i], rows[j]);
      ApartButNotClear(rows[i], rows[j]);
    }
    if SomeBackwards(rows) {
      var i, j :| 0 <= i < |rows| && 0 <= j < |rows| && Backwards(rows[i], rows[j]);
      assert !Clear(rows[if i < j then i else j], rows[if i < j then j else i]);
    }
  }

  /** A table passes only if all its rows are apart, whatever their sizes. */
  lemma PassingIsSound(rows: seq<Row>)
    requires Validate(rows) == []
    ensures PairwiseApart(rows)
  {
    hide Sorted, MissingFrom, BeyondIn, OverlapsIn, Clear, Apart, REQUIRED;
    NoOverlapIff(rows);
    forall i, j | 0 <= i < j < |rows|
      ensures Apart(rows[i], rows[j])
    {
      assert Clear(rows[i], rows[j]);
      ClearIsApart(rows[i], rows[j]);
    }
  }

  /**
    Sound and complete: any rows, in any order, pass exactly when the required names map
    to their exact ranges, no two rows overlap, all end within flash, and no row of
    negative size lies backwards from inside another. The last condition is empty for
    rows of no negative size.
  */
  lemma PassingIsExact(rows: seq<Row>)
    ensures Validate(rows) == [] <==>
            && (forall r <- REQUIRED :: Actual(rows, r.name) == Some(r.range))
            && PairwiseApart(rows) && !SomeBackwards(rows)
            && forall row <- rows :: row.End() <= FLASH_SIZE
    ensures (forall row <- rows :: row.size >= 0) ==> !SomeBackwards(rows)
  {
    hide Sorted, PairwiseApart, MissingFrom, BeyondIn, OverlapsIn, REQUIRED, Actual, SomeBackwards;
    NothingMissing(REQUIRED, rows);
    NothingBeyond(rows);
    if Validate(rows) == [] {
      PassingIsSound(rows);
    }
    if PairwiseApart(rows) {
      MisjudgedIffBackwards(rows);
    }
    NoneBackwards(rows);
  }

  lemma NoneBackwards(rows: seq<Row>)
    ensures (forall row <- rows :: row.size >= 0) ==> !SomeBackwards(rows)
  {
    if SomeBackwards(rows) {
      var i, j :| 0 <= i < |rows| && 0 <= j < |rows| && Backwards(rows[i], rows[j]);
      assert rows[j] in rows;
    }
  }

  /** A table of two rows that are apart, one of negative size, and are reported as overlapping. */
  lemma NegativeSizeIsMisjudged()
    ensures var rows := [Row("a", 0, 10), Row("b", 5, -5)];
            PairwiseApart(rows) && OverlapsIn(Sorted(rows)) != []
  {
    hide Sorted, OverlapsIn;
    var rows := [Row("a", 0, 10), Row("b", 5, -5)];
    assert Backwards(rows[0], rows[1]);
    MisjudgedIffBackwards(rows);
  }

  lemma {:induction false} ActualOf(rows: seq<Row>, name: string, i: nat)
    requires LastNamed(rows, name, i)
    ensures Actual(rows, name) == Some(Range(rows[i].offset, rows[i].size))
    decreases |rows|
  {
    var n := |rows| - 1;
    if i < n {
      assert rows[n].name != name;
      ActualOf(rows[..n], name, i);
    }
  }

  /** The partition table of the Arduino image. */
  const SHIPPED := [
    Row("nvs", 0x9000, 0x5000),
    Row("otadata", 0xE000, 0x2000),
    Row("app0", 0x10000, 0x800000),
    Row("app1", 0x810000, 0x800000),
    Row("coredump", 0x1010000, 0x10000),
    Row("littlefs", 0x1020000, 0xFE0000)
  ]

  lemma ShippedNames(i: nat, j: nat)
    requires i < j < |SHIPPED|
    ensures SHIPPED[i].name != SHIPPED[j].name
  {
    assert "app0"[3] != "app1"[3] && "coredump"[0] != "littlefs"[0];
  }

  lemma ShippedRanges(i: nat)
    requires i < |SHIPPED|
    ensures Actual(SHIPPED, SHIPPED[i].name) == Some(Range(SHIPPED[i].offset, SHIPPED[i].size))
  {
    hide Actual;
    forall j | i < j < |SHIPPED|
      ensures SHIPPED[j].name != SHIPPED[i].name
    {
      ShippedNames(i, j);
    }
    ActualOf(SHIPPED, SHIPPED[i].name, i);
  }

  /** The table that is shipped passes; it fills the 32 MiB of flash to the last byte. */
  lemma ShippedTablePasses()
    ensures Validate(SHIPPED) == []
    ensures |SHIPPED| == 6 && SHIPPED[5].End() == 0x2000000
  {
    hide Actual, Validate, PairwiseApart, SomeBackwards, SHIPPED, REQUIRED;
    PassingIsExact(SHIPPED);
    ShippedRows();
    ShippedIsRequired();
  }

  lemma ShippedRows()
    ensures PairwiseApart(SHIPPED) && |SHIPPED| == 6 && SHIPPED[5].End() == 0x2000000
    ensures forall row <- SHIPPED :: row.size >= 0 && row.End() <= FLASH_SIZE
  {
  }

  lemma ShippedIsRequired()
    ensures forall r <- REQUIRED :: Actual(SHIPPED, r.name) == Some(r.range)
  {
    hide Actual, SHIPPED, REQUIRED;
    forall r | r in REQUIRED
      ensures Actual(SHIPPED, r.name) == Some(r.range)
    {
      var i :| 0 <= i < |REQUIRED| && REQUIRED[i] == r;
      SameEntry(i);
      ShippedRanges(i);
    }
  }

  lemma SameEntry(i: nat)
    requires i < |REQUIRED|
    ensures |SHIPPED| == |REQUIRED| && SHIPPED[i].name == REQUIRED[i].name
    ensures REQUIRED[i].range == Range(SHIPPED[i].offset, SHIPPED[i].size)
  {
  }

  /** A reported problem is there: it names the row, or the two rows in sorting order, that have it. */
  ghost predicate IsReal(rows: seq<Row>, problem: Problem) {
    match problem
    case WrongRange(required, actual) =>
      required in REQUIRED && actual == Actual(rows, required.name) && actual != Some(required.range)
    case Overlap(first, second) =>
      exists a, b :: a in rows && b in rows && a.name == first && b.name == second
                     && a.offset <= b.offset < a.End()
    case BeyondFlash(name, end) =>
      end > 0x2000000 && exists row <- rows :: row.name == name && row.End() == end
  }

  lemma {:induction false} MissingAreReal(required: seq<Required>, rows: seq<Row>)
    requires forall r <- required :: r in REQUIRED
    ensures forall p <- MissingFrom(required, rows) :: IsReal(rows, p)
    decreases |required|
  {
    hide Actual, REQUIRED;
    if required != [] {
      assert required[0] in required && forall r <- required[1..] :: r in required;
      MissingAreReal(required[1..], rows);
    }
  }

  lemma {:induction false} OverlapsAreReal(sorted: seq<Row>, rows: seq<Row>)
    requires Ordered(sorted) && forall row <- sorted :: row in rows
    ensures forall p <- OverlapsIn(sorted) :: IsReal(rows, p)
    decreases |sorted|
  {
    hide Ordered, Actual, REQUIRED;
    if |sorted| >= 2 {
      OrderedTail(sorted);
      assert sorted[0] in sorted && sorted[1] in sorted && forall row <- sorted[1..] :: row in sorted;
      OverlapsAreReal(sorted[1..], rows);
    }
  }

  lemma {:induction false} BeyondAreReal(some: seq<Row>, rows: seq<Row>)
    requires forall row <- some :: row in rows
    ensures forall p <- BeyondIn(some) :: IsReal(rows, p)
    decreases |some|
  {
    hide Actual, REQUIRED;
    if some != [] {
      assert some[0] in some && forall row <- some[1..] :: row in some;
      BeyondAreReal(some[1..], rows);
    }
  }

  /** Every problem that the check reports is there. */
  lemma ProblemsAreReal(rows: seq<Row>)
    ensures forall p <- Validate(rows) :: IsReal(rows, p)
  {
    hide IsReal, Sorted, MissingFrom, OverlapsIn, BeyondIn, Ordered, REQUIRED;
    SortedIsOrdered(rows);
    SameMembers(Sorted(rows), rows);
    MissingAreReal(REQUIRED, rows);
    OverlapsAreReal(Sorted(rows), rows);
    BeyondAreReal(rows, rows);
  }
}
