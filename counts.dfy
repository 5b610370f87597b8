/** `Series.value_counts()`: each distinct value with the number of times it
    occurs, most frequent first. The counting is modelled as a tally kept in
    order of first appearance, and the ordering as a stable insertion sort
    by descending count. */
module Counts {
  import opened Series

  /** One row of a `value_counts()` result: a value and how often it occurs. */
  datatype Entry<K> = Entry(key: K, count: nat)

  function KeyOf<K>(e: Entry<K>): K {
    e.key
  }

  /** The sort key of `sort_values(ascending=False)` on the counts. */
  function NegatedCount<K>(e: Entry<K>): int {
    -(e.count as int)
  }

  /** The index of a `value_counts()` result. */
  function Keys<K>(t: seq<Entry<K>>): seq<K> {
    Project(t, KeyOf)
  }

  /** The sum of the counts. */
  function Total<K>(t: seq<Entry<K>>): nat {
    if t == [] then 0 else t[0].count + Total(t[1..])
  }

  /** The count listed for `k`, or 0 when `k` is not listed. */
  function CountOf<K(==)>(t: seq<Entry<K>>, k: K): nat {
    if t == [] then 0 else if t[0].key == k then t[0].count else CountOf(t[1..], k)
  }

  /** Records one more occurrence of `k`. */
  function Increment<K(==)>(t: seq<Entry<K>>, k: K): seq<Entry<K>> {
    if t == [] then [Entry(k, 1)]
    else if t[0].key == k then [Entry(k, t[0].count + 1)] + t[1..]
    else [t[0]] + Increment(t[1..], k)
  }

  /** Occurrence counts of the values of `s`, in order of first appearance. */
  function Tally<K(==)>(s: seq<K>): seq<Entry<K>> {
    if s == [] then [] else Increment(Tally(s[..|s| - 1]), s[|s| - 1])
  }

  ghost predicate NonIncreasing<K>(t: seq<Entry<K>>) {
    forall i, j :: 0 <= i < j < |t| ==> t[i].count >= t[j].count
  }

  /** `sort_values(ascending=False)` on counts; equal counts keep their order. */
  function SortByCount<K>(t: seq<Entry<K>>): seq<Entry<K>> {
    SortBy(t, NegatedCount)
  }

  /** `Series.value_counts()`. */
  function ValueCounts<K(==)>(s: seq<K>): seq<Entry<K>> {
    SortByCount(Tally(s))
  }

  // Tally

  lemma {:induction false} IncrementKeys<K>(t: seq<Entry<K>>, k: K)
    ensures Keys(Increment(t, k)) == if k in Keys(t) then Keys(t) else Keys(t) + [k]
  {
    if t != [] {
      IncrementKeys(t[1..], k);
      assert Keys(t) == [t[0].key] + Keys(t[1..]);
      if t[0].key == k {
        assert Keys(Increment(t, k)) == [k] + Keys(t[1..]);
      } else {
        assert Keys(Increment(t, k)) == [t[0].key] + Keys(Increment(t[1..], k));
      }
    }
  }

  lemma {:induction false} IncrementCount<K>(t: seq<Entry<K>>, k: K, x: K)
    ensures CountOf(Increment(t, k), x) == CountOf(t, x) + if x == k then 1 else 0
  {
    if t != [] && t[0].key != k {
      IncrementCount(t[1..], k, x);
    }
  }

  lemma {:induction false} IncrementTotal<K>(t: seq<Entry<K>>, k: K)
    ensures Total(Increment(t, k)) == Total(t) + 1
  {
    if t != [] && t[0].key != k {
      IncrementTotal(t[1..], k);
    }
  }

  /** The tally lists the distinct values in order of first appearance. */
  lemma {:induction false} TallyKeys<K>(s: seq<K>)
    ensures Keys(Tally(s)) == Unique(s)
  {
    if s != [] {
      TallyKeys(s[..|s| - 1]);
      IncrementKeys(Tally(s[..|s| - 1]), s[|s| - 1]);
    }
  }

  /** The tally's count for a value is the number of its occurrences. */
  lemma {:induction false} TallyCount<K>(s: seq<K>, x: K)
    ensures CountOf(Tally(s), x) == multiset(s)[x]
  {
    if s != [] {
      var init := s[..|s| - 1];
      TallyCount(init, x);
      IncrementCount(Tally(init), s[|s| - 1], x);
      assert s == init + [s[|s| - 1]];
    }
  }

  /** Every value is counted once: the counts add up to the number of rows. */
  lemma {:induction false} TallyTotal<K>(s: seq<K>)
    ensures Total(Tally(s)) == |s|
  {
    if s != [] {
      TallyTotal(s[..|s| - 1]);
      IncrementTotal(Tally(s[..|s| - 1]), s[|s| - 1]);
    }
  }

  /** With distinct keys, the count listed at an entry is the one `CountOf` finds. */
  lemma {:induction false} CountOfEntry<K>(t: seq<Entry<K>>, i: nat)
    requires i < |t| && Distinct(Keys(t))
    ensures CountOf(t, t[i].key) == t[i].count
  {
    if i > 0 {
      assert Keys(t)[0] != Keys(t)[i];
      assert Keys(t[1..]) == Keys(t)[1..];
      CountOfEntry(t[1..], i - 1);
    }
  }

  // Sorting

  /** Sorting by count yields non-increasing counts over a rearrangement of the same entries. */
  lemma SortByCountFacts<K>(t: seq<Entry<K>>)
    ensures NonIncreasing(SortByCount(t))
    ensures multiset(SortByCount(t)) == multiset(t)
    ensures multiset(Keys(SortByCount(t))) == multiset(Keys(t))
    ensures Total(SortByCount(t)) == Total(t)
  {
    SortByOrdered(t, NegatedCount);
    SortByPermutes(t, NegatedCount);
    SortByProjects(t, NegatedCount, KeyOf);
    SortByCountTotal(t);
  }

  lemma {:induction false} InsertTotal<K>(e: Entry<K>, t: seq<Entry<K>>)
    ensures Total(InsertBy(e, t, NegatedCount)) == Total(t) + e.count
  {
    if t != [] && NegatedCount(e) > NegatedCount(t[0]) {
      InsertTotal(e, t[1..]);
    }
  }

  lemma {:induction false} SortByCountTotal<K>(t: seq<Entry<K>>)
    ensures Total(SortByCount(t)) == Total(t)
  {
    if t != [] {
      SortByCountTotal(t[1..]);
      InsertTotal(t[0], SortByCount(t[1..]));
    }
  }

  /** Sorting what is already sorted changes nothing (the second sort at line 124). */
  lemma SortByCountSorted<K>(t: seq<Entry<K>>)
    requires NonIncreasing(t)
    ensures SortByCount(t) == t
  {
    SortByOrderedIdentity(t, NegatedCount);
  }

  /** Whatever order a sort gives equal counts, two non-increasing arrangements
      of the same entries list the same count at every position: sorting a sorted
      `value_counts()` result again may only swap values whose counts tie. */
  lemma {:induction false} SortedCountsAgree<K>(t: seq<Entry<K>>, u: seq<Entry<K>>)
    requires NonIncreasing(t) && NonIncreasing(u) && multiset(t) == multiset(u)
    ensures |u| == |t|
    ensures forall i :: 0 <= i < |t| ==> u[i].count == t[i].count
    decreases |t|
  {
    assert |u| == |multiset(u)| == |multiset(t)| == |t|;
    if t != [] {
      var k := HeadsAgree(t, u);
      var rest := DropEntry(t, k);
      assert u == [u[0]] + u[1..];
      assert multiset(u[1..]) == multiset(u) - multiset{u[0]};
      SortedCountsAgree(rest, u[1..]);
      ShiftedCounts(t, u, k, rest);
    }
  }

  /** The position-wise step of `SortedCountsAgree`: `rest` is `t` without its
      entry at `k`, and `u` past its head lists `rest`'s counts. */
  lemma ShiftedCounts<K>(t: seq<Entry<K>>, u: seq<Entry<K>>, k: nat, rest: seq<Entry<K>>)
    requires |u| == |t| && k < |t| && |rest| == |t| - 1
    requires forall i :: 0 <= i < k ==> rest[i] == t[i]
    requires forall i :: k <= i < |rest| ==> rest[i] == t[i + 1]
    requires forall i :: 0 <= i <= k ==> t[i].count == u[0].count
    requires forall i :: 0 <= i < |rest| ==> u[1..][i].count == rest[i].count
    ensures forall i :: 0 <= i < |t| ==> u[i].count == t[i].count
  {
    forall i | 0 < i < |t| ensures u[i].count == t[i].count {
      assert u[1..][i - 1] == u[i];
      if i <= k {
        assert rest[i - 1] == t[i - 1];
      } else {
        assert rest[i - 1] == t[i];
      }
    }
  }

  /** The first entries of two non-increasing arrangements of the same
      entries carry the largest count; `k` is where `u`'s first entry sits in
      `t`, and every entry of `t` up to it has that count. */
  lemma HeadsAgree<K>(t: seq<Entry<K>>, u: seq<Entry<K>>) returns (k: nat)
    requires NonIncreasing(t) && NonIncreasing(u) && multiset(t) == multiset(u) && t != []
    ensures u != [] && k < |t| && t[k] == u[0]
    ensures forall i :: 0 <= i <= k ==> t[i].count == u[0].count
  {
    assert t[0] in multiset(u);
    assert u[0] in multiset(t);
    var j :| 0 <= j < |u| && u[j] == t[0];
    k :| 0 <= k < |t| && t[k] == u[0];
  }

  /** `t` without its entry at `k` stays non-increasing. */
  lemma DropEntry<K>(t: seq<Entry<K>>, k: nat) returns (rest: seq<Entry<K>>)
    requires NonIncreasing(t) && k < |t|
    ensures |rest| == |t| - 1 && NonIncreasing(rest)
    ensures multiset(rest) == multiset(t) - multiset{t[k]}
    ensures forall i :: 0 <= i < k ==> rest[i] == t[i]
    ensures forall i :: k <= i < |rest| ==> rest[i] == t[i + 1]
  {
    rest := t[..k] + t[k + 1..];
    assert multiset(t) == multiset(t[..k]) + multiset{t[k]} + multiset(t[k + 1..]) by {
      assert t == t[..k] + [t[k]] + t[k + 1..];
    }
    forall i | k <= i < |rest| ensures rest[i] == t[i + 1] {
      assert rest[i] == t[k + 1..][i - k];
    }
  }

  /** A rearrangement of distinct values is distinct. */
  lemma {:induction false} DistinctPermutation<K>(a: seq<K>, b: seq<K>)
    requires Distinct(a) && multiset(a) == multiset(b)
    ensures Distinct(b)
  {
    forall i, j | 0 <= i < j < |b| ensures b[i] != b[j] {
      if b[i] == b[j] {
        assert b == b[..j] + b[j..];
        assert b[i] in b[..j] && b[j] in b[j..];
        assert multiset(b)[b[i]] >= 2 by {
          assert multiset(b) == multiset(b[..j]) + multiset(b[j..]);
        }
        DistinctOnce(a, b[i]);
      }
    }
  }

  lemma {:induction false} DistinctOnce<K>(a: seq<K>, x: K)
    requires Distinct(a)
    ensures multiset(a)[x] <= 1
  {
    if a != [] {
      assert Distinct(a[1..]);
      DistinctOnce(a[1..], x);
      assert a == [a[0]] + a[1..];
      if x == a[0] {
        assert x !in a[1..];
      }
    }
  }

  // Properties of value_counts and groupby().size()

  /** `t` lists every distinct value of `s` exactly once, with its number of occurrences. */
  ghost predicate CountsOf<K>(t: seq<Entry<K>>, s: seq<K>) {
    && Distinct(Keys(t))
    && (forall i :: 0 <= i < |s| ==> s[i] in Keys(t))
    && (forall i :: 0 <= i < |t| ==> t[i].key in s && t[i].count == multiset(s)[t[i].key] >= 1)
  }

  /** Any rearrangement of the tally is a table of the counts. */
  lemma RearrangedTally<K>(s: seq<K>, u: seq<Entry<K>>)
    requires multiset(u) == multiset(Tally(s)) && multiset(Keys(u)) == multiset(Keys(Tally(s)))
    ensures CountsOf(u, s) && |u| == |Unique(s)|
  {
    var t := Tally(s);
    TallyKeys(s);
    UniqueMembers(s);
    DistinctPermutation(Keys(t), Keys(u));
    assert |u| == |Keys(u)| == |multiset(Keys(u))| == |multiset(Keys(t))| == |t|;
    forall i | 0 <= i < |s| ensures s[i] in Keys(u) {
      assert s[i] in Keys(t);
      assert s[i] in multiset(Keys(u));
    }
    forall i | 0 <= i < |u| ensures u[i].key in s && u[i].count == multiset(s)[u[i].key] >= 1 {
      TallyEntry(s, u[i]);
    }
  }

  /** An entry of the tally holds a value of `s` and its number of occurrences. */
  lemma TallyEntry<K>(s: seq<K>, e: Entry<K>)
    requires e in multiset(Tally(s))
    ensures e.key in s && e.count == multiset(s)[e.key] >= 1
  {
    var t := Tally(s);
    TallyKeys(s);
    UniqueMembers(s);
    var j :| 0 <= j < |t| && t[j] == e;
    assert Keys(t)[j] == e.key;
    CountOfEntry(t, j);
    TallyCount(s, e.key);
  }

  /** `value_counts()` lists every distinct value exactly once, with its number of
      occurrences (at least one), the counts non-increasing and summing to the
      number of rows. */
  lemma ValueCountsFacts<K>(s: seq<K>)
    ensures CountsOf(ValueCounts(s), s) && |ValueCounts(s)| == |Unique(s)|
    ensures NonIncreasing(ValueCounts(s))
    ensures Total(ValueCounts(s)) == |s|
  {
    TallyTotal(s);
    SortByCountFacts(Tally(s));
    RearrangedTally(s, ValueCounts(s));
  }

  /** `groupby(column).size()` on an integer column: the group sizes by ascending key. */
  function GroupSizes(s: seq<int>): seq<Entry<int>> {
    SortBy(Tally(s), KeyOf)
  }

  /** Each value of the column is one group, listed in strictly increasing order
      with its number of rows. */
  lemma GroupSizesFacts(s: seq<int>)
    ensures CountsOf(GroupSizes(s), s) && |GroupSizes(s)| == |Unique(s)|
    ensures forall i, j :: 0 <= i < j < |GroupSizes(s)| ==> GroupSizes(s)[i].key < GroupSizes(s)[j].key
  {
    var g := GroupSizes(s);
    SortByOrdered(Tally(s), KeyOf);
    SortByPermutes(Tally(s), KeyOf);
    SortByProjects(Tally(s), KeyOf, KeyOf);
    RearrangedTally(s, g);
    forall i, j | 0 <= i < j < |g| ensures g[i].key < g[j].key {
      assert KeyOf(g[i]) <= KeyOf(g[j]);
      assert Keys(g)[i] != Keys(g)[j];
    }
  }

  /** The count listed for `k` in a table of the counts of `s`. */
  lemma CountOfCounts<K>(t: seq<Entry<K>>, s: seq<K>, k: K)
    requires CountsOf(t, s)
    ensures CountOf(t, k) == multiset(s)[k]
  {
    if k in s {
      var i :| 0 <= i < |s| && s[i] == k;
      var j :| 0 <= j < |t| && Keys(t)[j] == k;
      CountOfEntry(t, j);
    } else {
      CountOfAbsent(t, k);
    }
  }

  lemma {:induction false} CountOfAbsent<K>(t: seq<Entry<K>>, k: K)
    requires k !in Keys(t)
    ensures CountOf(t, k) == 0
  {
    if t != [] {
      assert Keys(t[1..]) == Keys(t)[1..];
      CountOfAbsent(t[1..], k);
    }
  }

  /** The first entry (`idxmax()` of the counts) is a most frequent value. */
  lemma MostFrequentFirst<K>(s: seq<K>)
    requires s != []
    ensures ValueCounts(s) != []
    ensures forall i :: 0 <= i < |s| ==> multiset(s)[s[i]] <= ValueCounts(s)[0].count
  {
    ValueCountsFacts(s);
    var vc := ValueCounts(s);
    forall i | 0 <= i < |s| ensures multiset(s)[s[i]] <= vc[0].count {
      var j :| 0 <= j < |vc| && Keys(vc)[j] == s[i];
    }
  }
}
