/** Column operations shared by the analysis cells: boolean-mask selection
    (`df[mask]`), `Series.unique()` and `Series.apply`/`astype`, which convert
    every cell or raise on the first one that fails. */
module Series {
  import opened Wrappers

  /** `df[mask]`: the rows that satisfy `keep`, in their original order. */
  function Filter<T>(s: seq<T>, keep: T -> bool): (r: seq<T>)
    ensures |r| <= |s|
    ensures forall i :: 0 <= i < |r| ==> r[i] in s && keep(r[i])
  {
    if s == [] then [] else (if keep(s[0]) then [s[0]] else []) + Filter(s[1..], keep)
  }

  /** Selection keeps every row that satisfies the mask, as often as it occurs, and no other. */
  lemma {:induction false} FilterCount<T>(s: seq<T>, keep: T -> bool, x: T)
    ensures multiset(Filter(s, keep))[x] == if keep(x) then multiset(s)[x] else 0
  {
    if s != [] {
      FilterCount(s[1..], keep, x);
      assert s == [s[0]] + s[1..];
    }
  }

  /** Selection on a concatenation selects on each part: the rows keep their relative order. */
  lemma {:induction false} FilterConcat<T>(a: seq<T>, b: seq<T>, keep: T -> bool)
    ensures Filter(a + b, keep) == Filter(a, keep) + Filter(b, keep)
  {
    if a == [] {
      assert a + b == b;
    } else {
      assert (a + b)[0] == a[0] && (a + b)[1..] == a[1..] + b;
      FilterConcat(a[1..], b, keep);
    }
  }

  /** A mask that every row satisfies selects the whole frame. */
  lemma {:induction false} FilterAll<T>(s: seq<T>, keep: T -> bool)
    requires forall x :: x in s ==> keep(x)
    ensures Filter(s, keep) == s
  {
    if s != [] {
      FilterAll(s[1..], keep);
    }
  }

  /** Selecting twice with the same mask selects nothing more. */
  lemma FilterIdempotent<T>(s: seq<T>, keep: T -> bool)
    ensures Filter(Filter(s, keep), keep) == Filter(s, keep)
  {
    FilterAll(Filter(s, keep), keep);
  }

  predicate Distinct<T(==)>(s: seq<T>) {
    forall i, j :: 0 <= i < j < |s| ==> s[i] != s[j]
  }

  /** `Series.unique()`: each value once, in order of first appearance. */
  function Unique<T(==)>(s: seq<T>): (r: seq<T>)
    ensures Distinct(r)
  {
    if s == [] then []
    else
      var u := Unique(s[..|s| - 1]);
      if s[|s| - 1] in u then u else u + [s[|s| - 1]]
  }

  /** The unique values are exactly the values of the column. */
  lemma {:induction false} UniqueMembers<T>(s: seq<T>)
    ensures forall i :: 0 <= i < |Unique(s)| ==> Unique(s)[i] in s
    ensures forall i :: 0 <= i < |s| ==> s[i] in Unique(s)
  {
    if s != [] {
      var init := s[..|s| - 1];
      UniqueMembers(init);
      assert s == init + [s[|s| - 1]];
      assert forall i :: 0 <= i < |s| - 1 ==> s[i] == init[i];
    }
  }

  /** The first occurrences come in order: a value listed before another was first seen before it. */
  lemma {:induction false} UniqueFirstSeen<T>(s: seq<T>, i: nat, j: nat)
    requires i < j < |Unique(s)|
    ensures Unique(s)[i] in s && Unique(s)[j] in s
    ensures FirstIndex(s, Unique(s)[i]) < FirstIndex(s, Unique(s)[j])
  {
    var init := s[..|s| - 1];
    var u := Unique(init);
    UniqueMembers(s);
    UniqueMembers(init);
    assert s == init + [s[|s| - 1]];
    FirstIndexPrefix(init, s, Unique(s)[i]);
    if j < |u| {
      UniqueFirstSeen(init, i, j);
      FirstIndexPrefix(init, s, Unique(s)[j]);
    } else {
      assert Unique(s)[j] == s[|s| - 1] && s[|s| - 1] !in init;
      FirstIndexLast(init, s);
      assert Unique(s)[i] in init;
    }
  }

  /** The position of the first occurrence of `x`. */
  function FirstIndex<T(==)>(s: seq<T>, x: T): (k: nat)
    requires x in s
    ensures k < |s| && s[k] == x && x !in s[..k]
  {
    if s[0] == x then 0
    else
      var k := FirstIndex(s[1..], x);
      assert s[..k + 1] == [s[0]] + s[1..][..k];
      k + 1
  }

  lemma FirstIndexPrefix<T>(init: seq<T>, s: seq<T>, x: T)
    requires init <= s && x in init
    ensures x in s && FirstIndex(s, x) == FirstIndex(init, x)
  {
    var k := FirstIndex(init, x);
    assert s[..k] == init[..k];
    FirstIndexUnique(s, x, k);
  }

  lemma FirstIndexLast<T>(init: seq<T>, s: seq<T>)
    requires |s| > 0 && s == init + [s[|s| - 1]] && s[|s| - 1] !in init
    ensures FirstIndex(s, s[|s| - 1]) == |init|
  {
    assert s[..|init|] == init;
    FirstIndexUnique(s, s[|s| - 1], |init|);
  }

  /** A position holding `x` with no `x` before it is the first occurrence. */
  lemma FirstIndexUnique<T>(s: seq<T>, x: T, k: nat)
    requires k < |s| && s[k] == x && x !in s[..k]
    ensures FirstIndex(s, x) == k
  {
  }

  /** A column of a frame: `f` applied to every row. */
  function Project<T, U>(s: seq<T>, f: T -> U): (r: seq<U>)
    ensures |r| == |s| && forall i :: 0 <= i < |s| ==> r[i] == f(s[i])
  {
    seq(|s|, i requires 0 <= i < |s| => f(s[i]))
  }

  lemma ProjectConcat<T, U>(a: seq<T>, b: seq<T>, f: T -> U)
    ensures Project(a + b, f) == Project(a, f) + Project(b, f)
  {
  }

  /** The values of a column are its first value and the values of the rest. */
  lemma ProjectHead<T, U>(s: seq<T>, f: T -> U)
    requires s != []
    ensures multiset(Project(s, f)) == multiset{f(s[0])} + multiset(Project(s[1..], f))
  {
    assert s == [s[0]] + s[1..];
    ProjectConcat([s[0]], s[1..], f);
    assert Project([s[0]], f) == [f(s[0])];
  }

  // Sorting rows by an integer rank, as `sort_values` does

  ghost predicate Ordered<T>(s: seq<T>, rank: T -> int) {
    forall i, j :: 0 <= i < j < |s| ==> rank(s[i]) <= rank(s[j])
  }

  /** Places `x` before the first element whose rank is not below its own. */
  function InsertBy<T>(x: T, s: seq<T>, rank: T -> int): seq<T> {
    if s == [] || rank(x) <= rank(s[0]) then [x] + s else [s[0]] + InsertBy(x, s[1..], rank)
  }

  /** `sort_values` by `rank`, ascending; elements of equal rank keep their order. */
  function SortBy<T>(s: seq<T>, rank: T -> int): seq<T> {
    if s == [] then [] else InsertBy(s[0], SortBy(s[1..], rank), rank)
  }

  lemma {:induction false} InsertByPermutes<T>(x: T, s: seq<T>, rank: T -> int)
    ensures multiset(InsertBy(x, s, rank)) == multiset(s) + multiset{x}
  {
    if s != [] && rank(x) > rank(s[0]) {
      InsertByPermutes(x, s[1..], rank);
      assert s == [s[0]] + s[1..];
    }
  }

  lemma {:induction false} InsertByProjects<T, U>(x: T, s: seq<T>, rank: T -> int, f: T -> U)
    ensures multiset(Project(InsertBy(x, s, rank), f)) == multiset(Project(s, f)) + multiset{f(x)}
  {
    if s == [] || rank(x) <= rank(s[0]) {
      ProjectConcat([x], s, f);
    } else {
      InsertByProjects(x, s[1..], rank, f);
      ProjectConcat([s[0]], InsertBy(x, s[1..], rank), f);
      ProjectConcat([s[0]], s[1..], f);
      assert s == [s[0]] + s[1..];
    }
  }

  lemma {:induction false} InsertByOrdered<T>(x: T, s: seq<T>, rank: T -> int)
    requires Ordered(s, rank)
    ensures Ordered(InsertBy(x, s, rank), rank)
  {
    if s != [] && rank(x) > rank(s[0]) {
      assert Ordered(s[1..], rank);
      InsertByOrdered(x, s[1..], rank);
      InsertByPermutes(x, s[1..], rank);
      var r := InsertBy(x, s[1..], rank);
      forall j | 0 <= j < |r| ensures rank(s[0]) <= rank(r[j]) {
        assert r[j] in multiset(r);
        assert r[j] == x || r[j] in s[1..];
      }
    }
  }

  /** The sorted rows are in rank order. */
  lemma {:induction false} SortByOrdered<T>(s: seq<T>, rank: T -> int)
    ensures Ordered(SortBy(s, rank), rank)
  {
    if s != [] {
      SortByOrdered(s[1..], rank);
      InsertByOrdered(s[0], SortBy(s[1..], rank), rank);
    }
  }

  /** Sorting rearranges the rows: each occurs as often as before. */
  lemma {:induction false} SortByPermutes<T>(s: seq<T>, rank: T -> int)
    ensures multiset(SortBy(s, rank)) == multiset(s)
  {
    if s != [] {
      SortByPermutes(s[1..], rank);
      InsertByPermutes(s[0], SortBy(s[1..], rank), rank);
      assert s == [s[0]] + s[1..];
    }
  }

  /** Sorting rearranges every column the same way. */
  lemma {:induction false} SortByProjects<T, U>(s: seq<T>, rank: T -> int, f: T -> U)
    ensures multiset(Project(SortBy(s, rank), f)) == multiset(Project(s, f))
  {
    if s != [] {
      var sorted := SortBy(s[1..], rank);
      assert SortBy(s, rank) == InsertBy(s[0], sorted, rank);
      SortByProjects(s[1..], rank, f);
      InsertByProjects(s[0], sorted, rank, f);
      ProjectHead(s, f);
    }
  }

  /** Sorting rows that are already in order changes nothing. */
  lemma {:induction false} SortByOrderedIdentity<T>(s: seq<T>, rank: T -> int)
    requires Ordered(s, rank)
    ensures SortBy(s, rank) == s
  {
    if s != [] {
      assert Ordered(s[1..], rank);
      SortByOrderedIdentity(s[1..], rank);
      assert s == [s[0]] + s[1..];
    }
  }

  /** Selecting from rows in order leaves them in order. */
  lemma {:induction false} FilterOrdered<T>(s: seq<T>, keep: T -> bool, rank: T -> int)
    requires Ordered(s, rank)
    ensures Ordered(Filter(s, keep), rank)
  {
    if s != [] {
      assert Ordered(s[1..], rank);
      FilterOrdered(s[1..], keep, rank);
      var r := Filter(s[1..], keep);
      forall j | 0 <= j < |r| ensures rank(s[0]) <= rank(r[j]) {
        var k :| 0 <= k < |s[1..]| && s[1..][k] == r[j];
        assert s[k + 1] == r[j];
      }
    }
  }

  /** `Series.apply(f)` / `Series.astype`: every cell converted, or the first failure raised. */
  function MapAll<A, B, E>(s: seq<A>, f: A -> Result<B, E>): (r: Result<seq<B>, E>)
    ensures r.Ok? ==> |r.value| == |s| && forall i :: 0 <= i < |s| ==> f(s[i]) == Ok(r.value[i])
  {
    if s == [] then Ok([])
    else
      match f(s[0]) {
        case Err(e) => Err(e)
        case Ok(b) =>
          match MapAll(s[1..], f) {
            case Err(e) => Err(e)
            case Ok(bs) => Ok([b] + bs)
          }
      }
  }

  /** A failed conversion raises the error of the first cell that fails. */
  lemma {:induction false} MapAllFirstFailure<A, B, E>(s: seq<A>, f: A -> Result<B, E>)
    requires MapAll(s, f).Err?
    ensures exists i :: 0 <= i < |s| && f(s[i]) == Err(MapAll(s, f).error) && forall j :: 0 <= j < i ==> f(s[j]).Ok?
  {
    if f(s[0]).Err? {
      assert f(s[0]) == Err(MapAll(s, f).error);
    } else {
      MapAllFirstFailure(s[1..], f);
      var i :| 0 <= i < |s[1..]| && f(s[1..][i]) == Err(MapAll(s[1..], f).error)
        && forall j :: 0 <= j < i ==> f(s[1..][j]).Ok?;
      assert f(s[i + 1]) == Err(MapAll(s, f).error);
      forall j | 0 < j < i + 1 ensures f(s[j]).Ok? {
        assert s[j] == s[1..][j - 1];
      }
    }
  }

  /** The conversion succeeds exactly when every cell converts. */
  lemma MapAllSucceeds<A, B, E>(s: seq<A>, f: A -> Result<B, E>)
    ensures MapAll(s, f).Ok? <==> forall i :: 0 <= i < |s| ==> f(s[i]).Ok?
  {
    if MapAll(s, f).Err? {
      MapAllFirstFailure(s, f);
    }
  }
}
