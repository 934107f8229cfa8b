/** The data store as the list endpoints see it: a table of records on which
    `findMany({ where, orderBy, skip, take })` and `count({ where })` run.
    A `findMany` is filter, then order, then drop `skip`, then take `take`. */
module Query {
  import opened Numbers

  /** A table the queries can reach, or a store whose every query throws. */
  datatype Store<T> = Online(rows: seq<T>) | Offline

  /** The `where` clause: the rows that satisfy `keep`, in table order. */
  function Filter<T(!new)>(s: seq<T>, keep: T -> bool): (r: seq<T>)
    ensures |r| <= |s|
    ensures forall i :: 0 <= i < |r| ==> keep(r[i])
  {
    if s == [] then []
    else
      var rest := Filter(s[1..], keep);
      if keep(s[0]) then [s[0]] + rest else rest
  }

  /** A row is fetched by the `where` clause exactly when it is in the table
      and satisfies the clause. */
  lemma {:induction false} FilterMembers<T(!new)>(s: seq<T>, keep: T -> bool, x: T)
    ensures x in Filter(s, keep) <==> x in s && keep(x)
  {
    if s != [] {
      FilterMembers(s[1..], keep, x);
      assert s == [s[0]] + s[1..];
    }
  }

  /** A `where` clause that every row passes selects the whole table. */
  lemma {:induction false} FilterAll<T(!new)>(s: seq<T>, keep: T -> bool)
    requires forall i :: 0 <= i < |s| ==> keep(s[i])
    ensures Filter(s, keep) == s
  {
    if s != [] {
      FilterAll(s[1..], keep);
      assert s == [s[0]] + s[1..];
    }
  }

  /** `count({ where })`, defined on its own as a running tally. */
  function CountWhere<T>(s: seq<T>, keep: T -> bool): (n: nat)
    ensures n <= |s|
  {
    if s == [] then 0
    else CountWhere(s[..|s| - 1], keep) + (if keep(s[|s| - 1]) then 1 else 0)
  }

  /** The count and the fetch use the same `where`: the count is the length
      of the filtered table. */
  lemma {:induction false} CountIsFilteredLength<T(!new)>(s: seq<T>, keep: T -> bool)
    ensures CountWhere(s, keep) == |Filter(s, keep)|
  {
    if s != [] {
      var init, last := s[..|s| - 1], s[|s| - 1];
      CountIsFilteredLength(init, keep);
      FilterAppend(init, [last], keep);
      assert init + [last] == s;
    }
  }

  lemma {:induction false} FilterAppend<T(!new)>(a: seq<T>, b: seq<T>, keep: T -> bool)
    ensures Filter(a + b, keep) == Filter(a, keep) + Filter(b, keep)
  {
    if a == [] {
      assert a + b == b;
    } else {
      var head := if keep(a[0]) then [a[0]] else [];
      FilterAppend(a[1..], b, keep);
      assert (a + b)[0] == a[0] && (a + b)[1..] == a[1..] + b;
      assert Filter(a + b, keep) == head + Filter(a[1..] + b, keep);
      assert Filter(a, keep) == head + Filter(a[1..], keep);
      assert head + (Filter(a[1..], keep) + Filter(b, keep))
          == (head + Filter(a[1..], keep)) + Filter(b, keep);
    }
  }

  /** `before(x, y)`: `x` may be listed ahead of `y` by the `orderBy` clause. */
  ghost predicate TotalPreorder<T(!new)>(before: (T, T) -> bool)
  {
    && (forall x, y :: before(x, y) || before(y, x))
    && (forall x, y, z :: before(x, y) && before(y, z) ==> before(x, z))
  }

  ghost predicate Sorted<T>(s: seq<T>, before: (T, T) -> bool)
  {
    forall i, j :: 0 <= i < j < |s| ==> before(s[i], s[j])
  }

  /** Places `x` after every element that may precede it. */
  function Insert<T>(x: T, s: seq<T>, before: (T, T) -> bool): (r: seq<T>)
    ensures |r| == |s| + 1
    ensures multiset(r) == multiset(s) + multiset{x}
  {
    if s == [] then [x]
    else if before(s[0], x) then
      assert s == [s[0]] + s[1..];
      [s[0]] + Insert(x, s[1..], before)
    else [x] + s
  }

  /** The `orderBy` clause. The database leaves the order of equal keys open;
      the model keeps table order among them. */
  function SortBy<T>(s: seq<T>, before: (T, T) -> bool): (r: seq<T>)
    ensures |r| == |s|
  {
    if s == [] then []
    else Insert(s[|s| - 1], SortBy(s[..|s| - 1], before), before)
  }

  /** Ordering neither adds, drops nor duplicates rows. */
  lemma {:induction false} SortByPermutes<T>(s: seq<T>, before: (T, T) -> bool)
    ensures multiset(SortBy(s, before)) == multiset(s)
  {
    if s != [] {
      SortByPermutes(s[..|s| - 1], before);
      assert s == s[..|s| - 1] + [s[|s| - 1]];
    }
  }

  lemma {:induction false} InsertSorted<T(!new)>(x: T, s: seq<T>, before: (T, T) -> bool)
    requires TotalPreorder(before) && Sorted(s, before)
    ensures Sorted(Insert(x, s, before), before)
  {
    if s != [] {
      if before(s[0], x) {
        var t := Insert(x, s[1..], before);
        InsertSorted(x, s[1..], before);
        forall j | 0 <= j < |t| ensures before(s[0], t[j]) {
          assert t[j] in multiset(t);
          if t[j] != x {
            assert t[j] in multiset(s[1..]);
            var k :| 0 <= k < |s[1..]| && s[1..][k] == t[j];
            assert s[k + 1] == t[j];
          }
        }
        var r := [s[0]] + t;
        forall i, j | 0 <= i < j < |r| ensures before(r[i], r[j]) {
          if i > 0 {
            assert r[i] == t[i - 1] && r[j] == t[j - 1];
          } else {
            assert r[j] == t[j - 1];
          }
        }
      } else {
        var r := [x] + s;
        forall i, j | 0 <= i < j < |r| ensures before(r[i], r[j]) {
          if i > 0 {
            assert r[i] == s[i - 1] && r[j] == s[j - 1];
          } else {
            assert before(x, s[0]);
            assert r[j] == s[j - 1];
            if j > 1 {
              assert before(s[0], s[j - 1]);
            }
          }
        }
      }
    }
  }

  /** The ordered table is a permutation of the table, in `orderBy` order. */
  lemma {:induction false} SortBySorted<T(!new)>(s: seq<T>, before: (T, T) -> bool)
    requires TotalPreorder(before)
    ensures Sorted(SortBy(s, before), before)
    ensures multiset(SortBy(s, before)) == multiset(s)
  {
    SortByPermutes(s, before);
    if s != [] {
      SortBySorted(s[..|s| - 1], before);
      InsertSorted(s[|s| - 1], SortBy(s[..|s| - 1], before), before);
    }
  }

  /** `skip`/`take`: the elements at positions `skip`, ..., `skip + take - 1`
      that exist. */
  function Window<T>(s: seq<T>, skip: nat, take: nat): (r: seq<T>)
    ensures |r| == Min(take, Max(0, |s| - skip))
    ensures forall i :: 0 <= i < |r| ==> r[i] == s[skip + i]
  {
    if skip >= |s| then [] else s[skip..][..Min(take, |s| - skip)]
  }

  /** `findMany({ where, orderBy, skip, take })` on a reachable table. */
  function FindMany<T(!new)>(rows: seq<T>, keep: T -> bool, before: (T, T) -> bool,
                       skip: nat, take: nat): seq<T>
  {
    Window(SortBy(Filter(rows, keep), before), skip, take)
  }

  /** Every fetched row is a row of the table that satisfies the `where` clause. */
  lemma FindManyMembers<T(!new)>(rows: seq<T>, keep: T -> bool, before: (T, T) -> bool,
                                 skip: nat, take: nat, x: T)
    requires x in FindMany(rows, keep, before, skip, take)
    ensures x in rows && keep(x)
  {
    var matching := Filter(rows, keep);
    var ordered := SortBy(matching, before);
    var r := Window(ordered, skip, take);
    var i :| 0 <= i < |r| && r[i] == x;
    SortByPermutes(matching, before);
    assert ordered[skip + i] in multiset(ordered);
    assert x in multiset(matching);
    assert x in matching;
    FilterMembers(rows, keep, x);
  }

  /** A fetched page is in `orderBy` order. */
  lemma FindManySorted<T(!new)>(rows: seq<T>, keep: T -> bool, before: (T, T) -> bool,
                                skip: nat, take: nat)
    requires TotalPreorder(before)
    ensures Sorted(FindMany(rows, keep, before, skip, take), before)
  {
    var ordered := SortBy(Filter(rows, keep), before);
    var r := Window(ordered, skip, take);
    SortBySorted(Filter(rows, keep), before);
    forall i, j | 0 <= i < j < |r| ensures before(r[i], r[j]) {
      assert r[i] == ordered[skip + i] && r[j] == ordered[skip + j];
    }
  }

  /** A fetched page holds as many rows as remain after `skip` of the counted
      ones, up to `take`, and they are consecutive in the ordered table. */
  lemma FindManySize<T(!new)>(rows: seq<T>, keep: T -> bool, before: (T, T) -> bool,
                              skip: nat, take: nat)
    ensures |FindMany(rows, keep, before, skip, take)|
      == Min(take, Max(0, CountWhere(rows, keep) - skip))
    ensures forall i :: 0 <= i < |FindMany(rows, keep, before, skip, take)| ==>
      FindMany(rows, keep, before, skip, take)[i] == SortBy(Filter(rows, keep), before)[skip + i]
  {
    var ordered := SortBy(Filter(rows, keep), before);
    CountIsFilteredLength(rows, keep);
    assert FindMany(rows, keep, before, skip, take) == Window(ordered, skip, take);
    assert |ordered| == CountWhere(rows, keep);
  }
}
