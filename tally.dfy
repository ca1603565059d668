/** Category counts over one column: `value_counts()` (missing values dropped,
    largest count first) and `.head(n)`. */
module Tally {
  import opened Base

  /** One entry of a `value_counts()` series: a category and how often it occurs. */
  datatype TypeCount = TypeCount(key: string, count: nat)

  /** How many entries of `col` are the category `k`. */
  function Occurrences(col: seq<Option<string>>, k: string): (n: nat)
    ensures n <= |col|
  {
    if col == [] then 0 else (if col[0] == Some(k) then 1 else 0) + Occurrences(col[1..], k)
  }

  /** `Occurrences` agrees with the multiplicity of `Some(k)` in the column. */
  lemma {:induction false} OccurrencesCount(col: seq<Option<string>>, k: string)
    ensures Occurrences(col, k) == multiset(col)[Some(k)]
    ensures Occurrences(col, k) > 0 <==> Some(k) in col
  {
    if col != [] {
      OccurrencesCount(col[1..], k);
      assert col == [col[0]] + col[1..];
    }
  }

  predicate NoDuplicates(s: seq<string>) {
    forall i, j :: 0 <= i < j < |s| ==> s[i] != s[j]
  }

  /** The distinct categories of `col`, in the order they first appear. */
  function Distinct(col: seq<Option<string>>): (r: seq<string>)
    ensures forall k :: k in r <==> Some(k) in col
    ensures NoDuplicates(r)
  {
    if col == [] then []
    else
      var init := col[..|col| - 1];
      var last := col[|col| - 1];
      assert col == init + [last];
      var rest := Distinct(init);
      if last.Some? && last.value !in rest then rest + [last.value] else rest
  }

  /** One entry per category of `keys`, with its number of occurrences. */
  function CountsOf(keys: seq<string>, col: seq<Option<string>>): (r: seq<TypeCount>)
    ensures |r| == |keys|
    ensures forall i :: 0 <= i < |r| ==> r[i] == TypeCount(keys[i], Occurrences(col, keys[i]))
  {
    if keys == [] then [] else [TypeCount(keys[0], Occurrences(col, keys[0]))] + CountsOf(keys[1..], col)
  }

  predicate SortedByCount(s: seq<TypeCount>) {
    forall i, j :: 0 <= i < j < |s| ==> s[i].count >= s[j].count
  }

  predicate DistinctKeys(s: seq<TypeCount>) {
    forall i, j :: 0 <= i < j < |s| ==> s[i].key != s[j].key
  }

  /** Every entry of `t` counts no more than `x`, so `x` may go in front. */
  lemma SortedCons(x: TypeCount, t: seq<TypeCount>)
    requires SortedByCount(t)
    requires forall y :: y in t ==> y.count <= x.count
    ensures SortedByCount([x] + t)
  {
    var r := [x] + t;
    forall i, j | 0 <= i < j < |r|
      ensures r[i].count >= r[j].count
    {
      assert r[j] == t[j - 1];
      if i > 0 {
        assert r[i] == t[i - 1];
      }
    }
  }

  /** `p` placed before the first entry whose count is not larger. */
  function Insert(p: TypeCount, s: seq<TypeCount>): (r: seq<TypeCount>)
    requires SortedByCount(s)
    ensures SortedByCount(r)
    ensures |r| == |s| + 1 && multiset(r) == multiset(s) + multiset{p}
  {
    if s == [] || p.count >= s[0].count then
      SortedCons(p, s);
      [p] + s
    else
      var rest := Insert(p, s[1..]);
      assert s == [s[0]] + s[1..];
      InsertBelowHead(p, s, rest);
      SortedCons(s[0], rest);
      [s[0]] + rest
  }

  /** What is inserted behind the head of a sorted sequence counts no more than it. */
  lemma InsertBelowHead(p: TypeCount, s: seq<TypeCount>, rest: seq<TypeCount>)
    requires SortedByCount(s) && s != [] && p.count < s[0].count
    requires multiset(rest) == multiset(s[1..]) + multiset{p}
    ensures forall x :: x in rest ==> x.count <= s[0].count
  {
    forall x | x in rest
      ensures x.count <= s[0].count
    {
      assert x in multiset(rest);
      if x != p {
        assert x in multiset(s[1..]);
        var j :| 0 <= j < |s| - 1 && s[1..][j] == x;
        assert s[j + 1] == x;
      }
    }
  }

  /** The entries of `s`, largest count first (ties stay in input order). */
  function SortByCount(s: seq<TypeCount>): (r: seq<TypeCount>)
    ensures SortedByCount(r)
    ensures |r| == |s| && multiset(r) == multiset(s)
  {
    if s == [] then []
    else
      assert s == [s[0]] + s[1..];
      Insert(s[0], SortByCount(s[1..]))
  }

  /** The same entries, in whatever order: membership agrees. */
  lemma SameMembers(r: seq<TypeCount>, s: seq<TypeCount>)
    requires multiset(r) == multiset(s)
    ensures forall x :: x in r <==> x in s
  {
    forall x
      ensures x in r <==> x in s
    {
      assert x in r <==> x in multiset(r);
      assert x in s <==> x in multiset(s);
    }
  }

  /** `value_counts()` of a column. */
  function ValueCounts(col: seq<Option<string>>): (r: seq<TypeCount>)
    ensures SortedByCount(r)
    ensures |r| == |Distinct(col)| && multiset(r) == multiset(CountsOf(Distinct(col), col))
  {
    SortByCount(CountsOf(Distinct(col), col))
  }

  /** `.head(n)`: the first `n` entries, or all when there are fewer. */
  function Head(s: seq<TypeCount>, n: nat): (r: seq<TypeCount>)
    ensures |r| <= n && |r| <= |s|
    ensures r == s[..|r|]
    ensures |r| < n ==> r == s
  {
    if |s| <= n then s else s[..n]
  }

  function SumCounts(s: seq<TypeCount>): nat {
    if s == [] then 0 else s[0].count + SumCounts(s[1..])
  }

  // ---------------------------------------------------------------------
  // Sums of counts

  lemma {:induction false} SumInsert(p: TypeCount, s: seq<TypeCount>)
    requires SortedByCount(s)
    ensures SumCounts(Insert(p, s)) == p.count + SumCounts(s)
  {
    if s != [] && p.count < s[0].count {
      SumInsert(p, s[1..]);
      var r := Insert(p, s);
      assert r[1..] == Insert(p, s[1..]);
    }
  }

  lemma {:induction false} SumSort(s: seq<TypeCount>)
    ensures SumCounts(SortByCount(s)) == SumCounts(s)
  {
    if s != [] {
      SumSort(s[1..]);
      SumInsert(s[0], SortByCount(s[1..]));
    }
  }

  lemma {:induction false} SumPrefix(s: seq<TypeCount>, k: nat)
    requires k <= |s|
    ensures SumCounts(s[..k]) <= SumCounts(s)
  {
    if k > 0 {
      SumPrefix(s[1..], k - 1);
      assert s[..k][1..] == s[1..][..k - 1];
    }
  }

  /** How many categories of `keys` the entry `x` is. */
  function Hits(keys: seq<string>, x: Option<string>): nat {
    if keys == [] then 0 else (if x == Some(keys[0]) then 1 else 0) + Hits(keys[1..], x)
  }

  lemma {:induction false} HitsAbsent(keys: seq<string>, k: string)
    requires k !in keys
    ensures Hits(keys, Some(k)) == 0
  {
    if keys != [] {
      HitsAbsent(keys[1..], k);
    }
  }

  lemma {:induction false} HitsAtMostOne(keys: seq<string>, x: Option<string>)
    requires NoDuplicates(keys)
    ensures Hits(keys, x) <= 1
  {
    if keys != [] {
      assert NoDuplicates(keys[1..]) by {
        forall i, j | 0 <= i < j < |keys| - 1
          ensures keys[1..][i] != keys[1..][j]
        {
          assert keys[1..][i] == keys[i + 1] && keys[1..][j] == keys[j + 1];
        }
      }
      HitsAtMostOne(keys[1..], x);
      if x == Some(keys[0]) {
        assert keys[0] !in keys[1..] by {
          forall j | 0 <= j < |keys| - 1
            ensures keys[1..][j] != keys[0]
          {
            assert keys[1..][j] == keys[j + 1];
          }
        }
        HitsAbsent(keys[1..], keys[0]);
      }
    }
  }

  /** The first entry of the column adds one to the count of each category it hits. */
  lemma {:induction false} CountsOfStep(keys: seq<string>, col: seq<Option<string>>)
    requires col != []
    ensures SumCounts(CountsOf(keys, col)) == Hits(keys, col[0]) + SumCounts(CountsOf(keys, col[1..]))
  {
    if keys != [] {
      CountsOfStep(keys[1..], col);
    }
  }

  /** Distinct categories together count no more entries than the column has. */
  lemma {:induction false} CountsOfBound(keys: seq<string>, col: seq<Option<string>>)
    requires NoDuplicates(keys)
    ensures SumCounts(CountsOf(keys, col)) <= |col|
  {
    if col == [] {
      ZeroCounts(keys, col);
    } else {
      CountsOfStep(keys, col);
      HitsAtMostOne(keys, col[0]);
      CountsOfBound(keys, col[1..]);
    }
  }

  lemma {:induction false} ZeroCounts(keys: seq<string>, col: seq<Option<string>>)
    requires col == []
    ensures SumCounts(CountsOf(keys, col)) == 0
  {
    if keys != [] {
      ZeroCounts(keys[1..], col);
    }
  }

  // ---------------------------------------------------------------------
  // Keys stay distinct under sorting

  lemma DistinctTail(s: seq<TypeCount>)
    requires s != [] && DistinctKeys(s)
    ensures DistinctKeys(s[1..])
    ensures forall x :: x in s[1..] ==> x.key != s[0].key
  {
    forall i, j | 0 <= i < j < |s| - 1
      ensures s[1..][i].key != s[1..][j].key
    {
      assert s[1..][i] == s[i + 1] && s[1..][j] == s[j + 1];
    }
    forall x | x in s[1..]
      ensures x.key != s[0].key
    {
      var j :| 0 <= j < |s| - 1 && s[1..][j] == x;
      assert s[j + 1] == x;
    }
  }

  lemma DistinctCons(x: TypeCount, t: seq<TypeCount>)
    requires DistinctKeys(t)
    requires forall y :: y in t ==> y.key != x.key
    ensures DistinctKeys([x] + t)
  {
    var r := [x] + t;
    forall i, j | 0 <= i < j < |r|
      ensures r[i].key != r[j].key
    {
      assert r[j] == t[j - 1];
      if i > 0 {
        assert r[i] == t[i - 1];
      }
    }
  }

  lemma {:induction false} InsertDistinct(p: TypeCount, s: seq<TypeCount>)
    requires SortedByCount(s) && DistinctKeys(s)
    requires forall x :: x in s ==> x.key != p.key
    ensures DistinctKeys(Insert(p, s))
  {
    if s == [] || p.count >= s[0].count {
      DistinctCons(p, s);
    } else {
      DistinctTail(s);
      assert forall x :: x in s[1..] ==> x in s;
      InsertDistinct(p, s[1..]);
      var rest := Insert(p, s[1..]);
      forall x | x in rest
        ensures x.key != s[0].key
      {
        assert x in multiset(rest);
      }
      DistinctCons(s[0], rest);
    }
  }

  lemma {:induction false} SortDistinct(s: seq<TypeCount>)
    requires DistinctKeys(s)
    ensures DistinctKeys(SortByCount(s))
  {
    if s != [] {
      DistinctTail(s);
      SortDistinct(s[1..]);
      SameMembers(SortByCount(s[1..]), s[1..]);
      InsertDistinct(s[0], SortByCount(s[1..]));
    }
  }

  // ---------------------------------------------------------------------
  // What value_counts and head promise

  /** Each entry of the unsorted counts carries its category's true count. */
  lemma CountsOfEntries(col: seq<Option<string>>)
    ensures var counts := CountsOf(Distinct(col), col);
            && DistinctKeys(counts)
            && (forall p :: p in counts ==> p.count == Occurrences(col, p.key) && p.count > 0)
            && (forall k :: Some(k) in col <==> exists p :: p in counts && p.key == k)
  {
    var keys := Distinct(col);
    var counts := CountsOf(keys, col);
    forall p | p in counts
      ensures p.count == Occurrences(col, p.key) && p.count > 0
    {
      var i :| 0 <= i < |counts| && counts[i] == p;
      OccurrencesCount(col, p.key);
    }
    forall k | Some(k) in col
      ensures exists p :: p in counts && p.key == k
    {
      var i :| 0 <= i < |keys| && keys[i] == k;
      assert counts[i] in counts;
    }
    forall k | exists p :: p in counts && p.key == k
      ensures Some(k) in col
    {
      var p :| p in counts && p.key == k;
      var i :| 0 <= i < |counts| && counts[i] == p;
      assert keys[i] in keys;
    }
  }

  /** `value_counts()` lists every category of the column exactly once, with
      its number of occurrences, largest first, and its counts add up to at
      most the length of the column (missing entries are not counted). */
  lemma ValueCountsSpec(col: seq<Option<string>>)
    ensures var r := ValueCounts(col);
            && SortedByCount(r)
            && DistinctKeys(r)
            && (forall p :: p in r ==> p.count == Occurrences(col, p.key) && p.count > 0)
            && (forall k :: Some(k) in col <==> exists p :: p in r && p.key == k)
            && SumCounts(r) <= |col|
  {
    var keys := Distinct(col);
    var counts := CountsOf(keys, col);
    var r := ValueCounts(col);
    CountsOfEntries(col);
    SortDistinct(counts);
    SameMembers(r, counts);
    SumSort(counts);
    CountsOfBound(keys, col);
  }

  /** A prefix keeps the order and the distinct keys of the whole. */
  lemma HeadKeeps(all: seq<TypeCount>, n: nat)
    requires SortedByCount(all) && DistinctKeys(all)
    ensures var r := Head(all, n);
            && SortedByCount(r) && DistinctKeys(r)
            && (forall p :: p in r ==> p in all)
            && SumCounts(r) <= SumCounts(all)
  {
    var r := Head(all, n);
    assert forall i :: 0 <= i < |r| ==> r[i] == all[i];
    SumPrefix(all, |r|);
  }

  /** An entry of a sorted sequence that its prefix leaves out counts no more
      than the last entry shown, and the prefix is full. */
  lemma HeadMisses(all: seq<TypeCount>, n: nat, j: nat)
    requires SortedByCount(all) && j < |all|
    requires all[j] !in Head(all, n)
    ensures var r := Head(all, n);
            |r| == n && (n > 0 ==> all[j].count <= r[n - 1].count)
  {
    var r := Head(all, n);
    assert forall i :: 0 <= i < |r| ==> all[i] == r[i];
    assert j >= |r|;
    if n > 0 {
      assert r[n - 1] == all[n - 1];
    }
  }

  /** The counts of `value_counts().head(n)`: at most `n` entries, largest
      first, each with its true count, adding up to at most the column length;
      a category left out occurs no more often than the last one shown. */
  lemma TopCountsSpec(col: seq<Option<string>>, n: nat)
    ensures var r := Head(ValueCounts(col), n);
            && |r| <= n
            && SortedByCount(r)
            && DistinctKeys(r)
            && (forall p :: p in r ==> p.count == Occurrences(col, p.key) && p.count > 0)
            && SumCounts(r) <= |col|
            && (forall k :: Some(k) in col && (forall p :: p in r ==> p.key != k) ==>
                  |r| == n && (n > 0 ==> Occurrences(col, k) <= r[n - 1].count))
  {
    var all := ValueCounts(col);
    var r := Head(all, n);
    ValueCountsSpec(col);
    HeadKeeps(all, n);
    forall k | Some(k) in col && (forall p :: p in r ==> p.key != k)
      ensures |r| == n && (n > 0 ==> Occurrences(col, k) <= r[n - 1].count)
    {
      var p :| p in all && p.key == k;
      var j :| 0 <= j < |all| && all[j] == p;
      HeadMisses(all, n, j);
    }
  }
}
