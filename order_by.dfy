/**
 * The semantics of an ORDER BY clause over the tasks table: each sort key names a column and a
 * direction; rows are compared key by key, the first key that differs deciding. Where NULL sorts is
 * the database's default and is kept as the parameter `nullsLow` (NULL below every value, or above).
 * The listing is produced by a stable insertion sort, so rows equal on every key keep table order.
 */
module OrderBy {
  import opened Wrappers
  import opened Tasks
  import Text

  datatype Column = DueDate | CreatedAt | Project | PriorityColumn
  datatype Direction = Asc | Desc
  datatype SortKey = SortKey(column: Column, direction: Direction)

  /** A column value as the database compares it. */
  datatype Value = Null | IntValue(i: int) | StrValue(s: string)

  datatype Ordering = Before | Tie | After

  /** The value a task holds in column c; a priority is compared as its stored name. */
  function ColumnValue(t: Task, c: Column): Value {
    match c
    case DueDate => if t.dueDate.Some? then IntValue(t.dueDate.value) else Null
    case CreatedAt => if t.createdAt.Some? then IntValue(t.createdAt.value) else Null
    case Project => if t.project.Some? then StrValue(t.project.value) else Null
    case PriorityColumn => if t.priority.Some? then StrValue(PriorityName(t.priority.value)) else Null
  }

  function Flip(o: Ordering): Ordering {
    match o
    case Before => After
    case Tie => Tie
    case After => Before
  }

  /** Ascending comparison of two values of one column. */
  function CompareValues(a: Value, b: Value, nullsLow: bool): Ordering {
    match (a, b)
    case (Null, Null) => Tie
    case (Null, _) => if nullsLow then Before else After
    case (_, Null) => if nullsLow then After else Before
    case (IntValue(x), IntValue(y)) => if x < y then Before else if x == y then Tie else After
    case (StrValue(x), StrValue(y)) => if Text.StrLess(x, y) then Before else if x == y then Tie else After
    case (IntValue(_), StrValue(_)) => Before
    case (StrValue(_), IntValue(_)) => After
  }

  /** The value comparison is a total order: antisymmetric, Tie only on equal values, transitive. */
  lemma CompareValuesTotalOrder(a: Value, b: Value, c: Value, nullsLow: bool)
    ensures CompareValues(b, a, nullsLow) == Flip(CompareValues(a, b, nullsLow))
    ensures CompareValues(a, b, nullsLow) == Tie <==> a == b
    ensures CompareValues(a, b, nullsLow) == Before && CompareValues(b, c, nullsLow) == Before
         ==> CompareValues(a, c, nullsLow) == Before
  {
    if a.StrValue? && b.StrValue? {
      Text.StrLessTotal(a.s, b.s);
      Text.StrLessIrreflexive(a.s);
      if c.StrValue? && Text.StrLess(a.s, b.s) && Text.StrLess(b.s, c.s) {
        Text.StrLessTransitive(a.s, b.s, c.s);
      }
    }
  }

  /** The comparison of a and b under one sort key, its direction applied. */
  function CompareKey(a: Task, b: Task, k: SortKey, nullsLow: bool): Ordering {
    var o := CompareValues(ColumnValue(a, k.column), ColumnValue(b, k.column), nullsLow);
    if k.direction == Asc then o else Flip(o)
  }

  lemma CompareKeyTotalOrder(a: Task, b: Task, c: Task, k: SortKey, nullsLow: bool)
    ensures CompareKey(b, a, k, nullsLow) == Flip(CompareKey(a, b, k, nullsLow))
    ensures CompareKey(a, b, k, nullsLow) == Tie <==> ColumnValue(a, k.column) == ColumnValue(b, k.column)
    ensures CompareKey(a, b, k, nullsLow) == Before && CompareKey(b, c, k, nullsLow) == Before
         ==> CompareKey(a, c, k, nullsLow) == Before
  {
    var va, vb, vc := ColumnValue(a, k.column), ColumnValue(b, k.column), ColumnValue(c, k.column);
    CompareValuesTotalOrder(va, vb, vc, nullsLow);
    CompareValuesTotalOrder(vb, vc, va, nullsLow);
    CompareValuesTotalOrder(va, vc, vb, nullsLow);
    CompareValuesTotalOrder(vc, vb, va, nullsLow);
  }

  /** ORDER BY keys[0], keys[1], ...: the first key that does not tie decides. */
  function Compare(a: Task, b: Task, keys: seq<SortKey>, nullsLow: bool): Ordering
    decreases |keys|
  {
    if keys == [] then Tie
    else
      var o := CompareKey(a, b, keys[0], nullsLow);
      if o != Tie then o else Compare(a, b, keys[1..], nullsLow)
  }

  /** a may be listed before b. */
  predicate Precedes(a: Task, b: Task, keys: seq<SortKey>, nullsLow: bool) {
    Compare(a, b, keys, nullsLow) != After
  }

  lemma {:induction false} CompareFlip(a: Task, b: Task, keys: seq<SortKey>, nullsLow: bool)
    ensures Compare(b, a, keys, nullsLow) == Flip(Compare(a, b, keys, nullsLow))
    decreases |keys|
  {
    if keys != [] {
      CompareKeyTotalOrder(a, b, a, keys[0], nullsLow);
      CompareFlip(a, b, keys[1..], nullsLow);
    }
  }

  lemma {:induction false} CompareTransitive(a: Task, b: Task, c: Task, keys: seq<SortKey>, nullsLow: bool)
    requires Precedes(a, b, keys, nullsLow) && Precedes(b, c, keys, nullsLow)
    ensures Precedes(a, c, keys, nullsLow)
    decreases |keys|
  {
    if keys != [] {
      var k := keys[0];
      CompareKeyTotalOrder(a, b, c, k, nullsLow);
      CompareKeyTotalOrder(a, c, b, k, nullsLow);
      if CompareKey(a, b, k, nullsLow) == Tie && CompareKey(b, c, k, nullsLow) == Tie {
        CompareTransitive(a, b, c, keys[1..], nullsLow);
      }
    }
  }

  /** Every pair of rows appears in an order the keys allow. */
  predicate Sorted(s: seq<Task>, keys: seq<SortKey>, nullsLow: bool) {
    forall i, j :: 0 <= i < j < |s| ==> Precedes(s[i], s[j], keys, nullsLow)
  }

  /** Insert x before the first row it may precede. */
  function Insert(x: Task, s: seq<Task>, keys: seq<SortKey>, nullsLow: bool): (r: seq<Task>)
    ensures |r| == |s| + 1
    ensures multiset(r) == multiset(s) + multiset{x}
  {
    if s == [] then [x]
    else if Precedes(x, s[0], keys, nullsLow) then [x] + s
    else
      assert s == [s[0]] + s[1..];
      [s[0]] + Insert(x, s[1..], keys, nullsLow)
  }

  /** A sorted sequence stays sorted under a head that may precede each of its rows. */
  lemma SortedCons(h: Task, s: seq<Task>, keys: seq<SortKey>, nullsLow: bool)
    requires Sorted(s, keys, nullsLow)
    requires forall j :: 0 <= j < |s| ==> Precedes(h, s[j], keys, nullsLow)
    ensures Sorted([h] + s, keys, nullsLow)
  {
    var r := [h] + s;
    forall i, j | 0 <= i < j < |r| ensures Precedes(r[i], r[j], keys, nullsLow) {
      assert r[j] == s[j - 1];
      if i > 0 {
        assert r[i] == s[i - 1];
      }
    }
  }

  /** Every row of an insertion is the inserted row or a row of the sequence inserted into. */
  lemma InsertMembers(x: Task, s: seq<Task>, keys: seq<SortKey>, nullsLow: bool, j: int)
    requires 0 <= j < |Insert(x, s, keys, nullsLow)|
    ensures var y := Insert(x, s, keys, nullsLow)[j]; y == x || exists m :: 0 <= m < |s| && s[m] == y
  {
    var y := Insert(x, s, keys, nullsLow)[j];
    assert y in multiset(Insert(x, s, keys, nullsLow));
    if y != x {
      assert y in multiset(s);
      assert y in s;
    }
  }

  lemma {:induction false} InsertSorted(x: Task, s: seq<Task>, keys: seq<SortKey>, nullsLow: bool)
    requires Sorted(s, keys, nullsLow)
    ensures Sorted(Insert(x, s, keys, nullsLow), keys, nullsLow)
  {
    if s != [] {
      if Precedes(x, s[0], keys, nullsLow) {
        forall j | 0 <= j < |s| ensures Precedes(x, s[j], keys, nullsLow) {
          if j > 0 {
            CompareTransitive(x, s[0], s[j], keys, nullsLow);
          }
        }
        SortedCons(x, s, keys, nullsLow);
      } else {
        CompareFlip(x, s[0], keys, nullsLow);
        var tail := s[1..];
        InsertSorted(x, tail, keys, nullsLow);
        var r' := Insert(x, tail, keys, nullsLow);
        forall j | 0 <= j < |r'| ensures Precedes(s[0], r'[j], keys, nullsLow) {
          InsertMembers(x, tail, keys, nullsLow, j);
          if r'[j] != x {
            var m :| 0 <= m < |tail| && tail[m] == r'[j];
            assert s[m + 1] == r'[j];
          }
        }
        SortedCons(s[0], r', keys, nullsLow);
      }
    }
  }

  /** Insertion sort: a permutation of s in which every pair is in an allowed order. */
  function SortBy(s: seq<Task>, keys: seq<SortKey>, nullsLow: bool): (r: seq<Task>)
    ensures multiset(r) == multiset(s)
    ensures Sorted(r, keys, nullsLow)
  {
    if s == [] then []
    else
      var rest := SortBy(s[1..], keys, nullsLow);
      InsertSorted(s[0], rest, keys, nullsLow);
      assert s == [s[0]] + s[1..];
      Insert(s[0], rest, keys, nullsLow)
  }
}
