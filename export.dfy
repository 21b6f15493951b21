/** The ordering part of `saveToXlsx`: collect the map's keys, sort them
    ascending, and lay out one sheet row per key. The workbook itself is an
    external sink; a row here is what the two `SetCellValue` calls write. */
module Export {
  import opened TimeStamp

  /** Row `index` of the sheet: column A shows `date`, column B `mileage`. */
  datatype Row = Row(index: nat, date: Instant, mileage: real)

  predicate Sorted(s: seq<Instant>) {
    forall i, j :: 0 <= i < j < |s| ==> s[i] <= s[j]
  }

  predicate StrictlyIncreasing(s: seq<Instant>) {
    forall i, j :: 0 <= i < j < |s| ==> s[i] < s[j]
  }

  predicate Distinct(s: seq<Instant>) {
    forall i, j :: 0 <= i < j < |s| ==> s[i] != s[j]
  }

  function RowDates(rows: seq<Row>): (ds: seq<Instant>)
    ensures |ds| == |rows| && forall i :: 0 <= i < |rows| ==> ds[i] == rows[i].date
  {
    seq(|rows|, i requires 0 <= i < |rows| => rows[i].date)
  }

  /** What the sheet must hold for `res`: rows numbered from 1, dates strictly
      ascending, each row carrying its date's value, and every date present. */
  ghost predicate IsExport(res: map<Instant, real>, rows: seq<Row>) {
    && (forall i :: 0 <= i < |rows| ==>
          rows[i].index == i + 1 && rows[i].date in res && rows[i].mileage == res[rows[i].date])
    && StrictlyIncreasing(RowDates(rows))
    && (forall d :: d in res ==> d in RowDates(rows))
  }

  /** The first n elements of a are in ascending order. */
  ghost predicate SortedUpTo(a: array<Instant>, n: int)
    reads a
    requires 0 <= n <= a.Length
  {
    forall p, q :: 0 <= p < q < n ==> a[p] <= a[q]
  }

  /** `sort.Slice(keys, func(i, j int) bool { return keys[i].Before(keys[j]) })`,
      as an insertion sort by adjacent swaps. */
  method SortAscending(a: array<Instant>)
    modifies a
    ensures Sorted(a[..])
    ensures multiset(a[..]) == old(multiset(a[..]))
  {
    var i := 0;
    while i < a.Length
      invariant 0 <= i <= a.Length
      invariant SortedUpTo(a, i)
      invariant multiset(a[..]) == old(multiset(a[..]))
    {
      Insert(a, i);
      i := i + 1;
    }
  }

  /** Sinks a[i] into the sorted prefix a[..i]. */
  method Insert(a: array<Instant>, i: int)
    requires 0 <= i < a.Length
    requires SortedUpTo(a, i)
    modifies a
    ensures SortedUpTo(a, i + 1)
    ensures multiset(a[..]) == old(multiset(a[..]))
  {
    var j := i;
    while j > 0 && a[j - 1] > a[j]
      invariant 0 <= j <= i
      invariant forall p, q :: 0 <= p < q <= i && q != j ==> a[p] <= a[q]
      invariant forall p, q :: 0 <= p < j < q <= i ==> a[p] <= a[q]
      invariant multiset(a[..]) == old(multiset(a[..]))
    {
      SwapAdjacent(a, j);
      j := j - 1;
    }
  }

  method SwapAdjacent(a: array<Instant>, j: int)
    requires 0 < j < a.Length
    modifies a
    ensures a[..] == old(a[..])[j - 1 := old(a[j])][j := old(a[j - 1])]
    ensures multiset(a[..]) == old(multiset(a[..]))
  {
    a[j - 1], a[j] := a[j], a[j - 1];
  }

  /** `for k := range *res { keys = append(keys, k) }`: every key once, in
      whatever order the map yields them. */
  method Keys(res: map<Instant, real>) returns (keys: seq<Instant>)
    ensures Distinct(keys)
    ensures forall d :: d in keys <==> d in res
  {
    keys := [];
    var rest := res.Keys;
    while rest != {}
      invariant rest <= res.Keys
      invariant forall i :: 0 <= i < |keys| ==> keys[i] in res && keys[i] !in rest
      invariant forall d :: d in res ==> d in rest || d in keys
      invariant Distinct(keys)
      decreases rest
    {
      EmptyOrMember(rest);
      var k :| k in rest;
      keys := keys + [k];
      rest := rest - {k};
    }
  }

  /** `saveToXlsx` without the workbook: the keys in map order, sorted
      ascending, then one row per key. */
  method SaveToXlsx(res: map<Instant, real>) returns (rows: seq<Row>)
    ensures IsExport(res, rows)
    ensures |rows| == |res|
  {
    var keys := Keys(res);
    var a := new Instant[|keys|](i requires 0 <= i < |keys| => keys[i]);
    assert a[..] == keys;
    SortAscending(a);
    SortedPermutationOfDistinct(keys, a[..]);
    forall p | 0 <= p < a.Length ensures a[p] in res {
      assert a[..][p] in multiset(keys);
    }
    rows := [];
    for i := 0 to a.Length
      invariant |rows| == i
      invariant forall p :: 0 <= p < i ==> rows[p] == Row(p + 1, a[p], res[a[p]])
    {
      rows := rows + [Row(i + 1, a[i], res[a[i]])];
    }
    assert RowDates(rows) == a[..];
    forall d | d in res ensures d in RowDates(rows) {
      assert d in multiset(keys);
    }
    ExportSize(res, rows);
  }

  /** A set is empty or has a member (what `var k :| k in rest` needs). */
  lemma EmptyOrMember(s: set<Instant>)
    ensures s == {} || exists k :: k in s
  {
    if forall k :: k !in s {
      assert s == {};
    }
  }

  /** A distinct list keeps each value at most once. */
  lemma {:induction false} DistinctCount(s: seq<Instant>, x: Instant)
    requires Distinct(s)
    ensures multiset(s)[x] <= 1
  {
    if s != [] {
      var init := s[..|s| - 1];
      assert s == init + [s[|s| - 1]];
      DistinctCount(init, x);
      if x == s[|s| - 1] {
        assert x !in init;
      }
    }
  }

  /** Sorting a list without duplicates yields a strictly increasing list
      holding the same values. */
  lemma SortedPermutationOfDistinct(keys: seq<Instant>, s: seq<Instant>)
    requires Distinct(keys)
    requires Sorted(s)
    requires multiset(s) == multiset(keys)
    ensures StrictlyIncreasing(s)
  {
    forall i, j | 0 <= i < j < |s| ensures s[i] < s[j] {
      if s[i] == s[j] {
        assert s == s[..i] + [s[i]] + s[i + 1..j] + [s[j]] + s[j + 1..];
        assert multiset(s)[s[i]] >= 2;
        DistinctCount(keys, s[i]);
        assert false;
      }
    }
  }

  /** Two strictly increasing lists with the same members are equal. */
  lemma {:induction false} StrictlyIncreasingUnique(s: seq<Instant>, t: seq<Instant>)
    requires StrictlyIncreasing(s) && StrictlyIncreasing(t)
    requires forall x :: x in s <==> x in t
    ensures s == t
  {
    if s != [] { assert s[0] in s; assert s[0] in t; }
    if t != [] { assert t[0] in t; assert t[0] in s; }
    if s != [] && t != [] {
      assert s[0] == t[0];
      forall x ensures x in s[1..] <==> x in t[1..] {
        assert x in s[1..] <==> x in s && x != s[0];
        assert x in t[1..] <==> x in t && x != t[0];
      }
      StrictlyIncreasingUnique(s[1..], t[1..]);
      assert s == [s[0]] + s[1..];
      assert t == [t[0]] + t[1..];
    }
  }

  /** The rows for a map are fully determined by it: whatever order the keys
      came out of the map in, the sheet is the same. */
  lemma ExportDeterministic(res: map<Instant, real>, rows1: seq<Row>, rows2: seq<Row>)
    requires IsExport(res, rows1) && IsExport(res, rows2)
    ensures rows1 == rows2
  {
    StrictlyIncreasingUnique(RowDates(rows1), RowDates(rows2));
    assert |rows1| == |rows2|;
    forall i | 0 <= i < |rows1| ensures rows1[i] == rows2[i] {
      assert RowDates(rows1)[i] == RowDates(rows2)[i];
    }
  }

  /** One row per map entry; an empty map writes no row. */
  lemma ExportSize(res: map<Instant, real>, rows: seq<Row>)
    requires IsExport(res, rows)
    ensures |rows| == |res|
    ensures res == map[] <==> rows == []
  {
    var ds := RowDates(rows);
    var dates := set i | 0 <= i < |ds| :: ds[i];
    forall d | d in res ensures d in dates {
      assert d in ds;
    }
    assert dates == res.Keys;
    DistinctCard(ds);
  }

  /** A strictly increasing list has as many members as elements. */
  lemma {:induction false} DistinctCard(s: seq<Instant>)
    requires StrictlyIncreasing(s)
    ensures |set i | 0 <= i < |s| :: s[i]| == |s|
  {
    if s != [] {
      var init := s[..|s| - 1];
      DistinctCard(init);
      var a := set i | 0 <= i < |init| :: init[i];
      var b := set i | 0 <= i < |s| :: s[i];
      assert b == a + {s[|s| - 1]} by {
        forall x | x in b ensures x in a + {s[|s| - 1]} {
          var i :| 0 <= i < |s| && s[i] == x;
          if i < |init| { assert init[i] == s[i]; }
        }
        forall x | x in a ensures x in b {
          var i :| 0 <= i < |init| && init[i] == x;
          assert s[i] == init[i];
        }
      }
      assert s[|s| - 1] !in a;
    }
  }
}
