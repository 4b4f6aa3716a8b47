/** analytics.py: per-category aggregation over the stored transactions, global
    totals and the per-category drill-down. Every operation takes the store's
    current contents, in id order. */
module Analytics {
  import opened Wrappers
  import opened Strings
  import opened Sorting
  import opened Models
  import opened Store

  datatype CategorySummary = CategorySummary(
    category: string,
    count: nat,
    total: real,
    average: real,
    percentage: real)

  /** The drill-down projection of a transaction. */
  datatype TransactionDetail = TransactionDetail(date: string, description: string, amount: real)

  datatype TotalStats = TotalStats(totalCount: nat, totalAmount: real, averageAmount: real)

  /** One row of `groupby('category').agg(count, sum, mean)`. */
  datatype Group = Group(category: string, count: nat, total: real, average: real)

  function SumAmounts(ts: seq<Transaction>): real {
    if ts == [] then 0.0 else ts[0].amount + SumAmounts(ts[1..])
  }

  function CategorySet(store: seq<Transaction>): set<string> {
    set t | t in store :: t.category
  }

  /** The distinct categories of the store, each once. */
  function DistinctCategories(store: seq<Transaction>): (r: seq<string>)
    ensures forall c :: multiset(r)[c] == if c in CategorySet(store) then 1 else 0
  {
    if store == [] then []
    else
      var rest := DistinctCategories(store[1..]);
      CategorySetCons(store);
      if store[0].category in rest then rest else [store[0].category] + rest
  }

  lemma CategorySetCons(store: seq<Transaction>)
    requires store != []
    ensures CategorySet(store) == {store[0].category} + CategorySet(store[1..])
  {
    assert store == [store[0]] + store[1..];
  }

  /** There are as many distinct categories as the store has categories. */
  lemma {:induction false} DistinctCategoriesCount(store: seq<Transaction>)
    ensures |DistinctCategories(store)| == |CategorySet(store)|
  {
    if store != [] {
      DistinctCategoriesCount(store[1..]);
      CategorySetCons(store);
      var rest := DistinctCategories(store[1..]);
      if store[0].category !in rest {
        assert store[0].category !in CategorySet(store[1..]);
      } else {
        assert store[0].category in multiset(rest);
      }
    }
  }

  function Identity(s: string): string { s }

  /** The group keys in `groupby`'s order: each distinct category once, sorted. */
  function GroupKeys(store: seq<Transaction>): (keys: seq<string>)
    ensures forall c :: multiset(keys)[c] == if c in CategorySet(store) then 1 else 0
    ensures |keys| == |CategorySet(store)|
    ensures SortedByKey(keys, Identity)
  {
    var keys := SortByKey(DistinctCategories(store), Identity);
    SortByKeyPermutes(DistinctCategories(store), Identity);
    SortByKeySorted(DistinctCategories(store), Identity);
    DistinctCategoriesCount(store);
    keys
  }

  function GroupOf(store: seq<Transaction>, category: string): Group {
    var ts := GetByCategory(store, category);
    Group(category, |ts|, SumAmounts(ts), if |ts| == 0 then 0.0 else SumAmounts(ts) / |ts| as real)
  }

  function Groups(store: seq<Transaction>, keys: seq<string>): (r: seq<Group>)
    ensures |r| == |keys|
  {
    if keys == [] then [] else [GroupOf(store, keys[0])] + Groups(store, keys[1..])
  }

  function GroupCounts(gs: seq<Group>): nat {
    if gs == [] then 0 else gs[0].count + GroupCounts(gs[1..])
  }

  function GroupTotals(gs: seq<Group>): real {
    if gs == [] then 0.0 else gs[0].total + GroupTotals(gs[1..])
  }

  /** `total / grand_total * 100`, and 0 when the grand total is 0. */
  function Percentage(total: real, grandTotal: real): real {
    if grandTotal != 0.0 then total / grandTotal * 100.0 else 0.0
  }

  function WithPercentages(gs: seq<Group>, grandTotal: real): (r: seq<CategorySummary>)
    ensures |r| == |gs|
  {
    if gs == [] then []
    else [CategorySummary(gs[0].category, gs[0].count, gs[0].total, gs[0].average,
                          Percentage(gs[0].total, grandTotal))]
         + WithPercentages(gs[1..], grandTotal)
  }

  /** `sort_values('total', ascending=False)`, as an insertion sort. */
  function InsertByTotal(ss: seq<CategorySummary>, x: CategorySummary): (r: seq<CategorySummary>)
    ensures |r| == |ss| + 1
    decreases |ss|
  {
    if ss == [] || !(x.total > ss[|ss| - 1].total) then ss + [x]
    else InsertByTotal(ss[..|ss| - 1], x) + [ss[|ss| - 1]]
  }

  function SortByTotal(ss: seq<CategorySummary>): (r: seq<CategorySummary>)
    ensures |r| == |ss|
  {
    if ss == [] then [] else InsertByTotal(SortByTotal(ss[..|ss| - 1]), ss[|ss| - 1])
  }

  /** `group_by_category`. */
  function GroupByCategory(store: seq<Transaction>): (r: seq<CategorySummary>)
    ensures store == [] ==> r == []
  {
    if store == [] then []
    else
      var groups := Groups(store, GroupKeys(store));
      SortByTotal(WithPercentages(groups, GroupTotals(groups)))
  }

  // ----- measures of a list of summaries

  function Names(ss: seq<CategorySummary>): (r: seq<string>)
    ensures |r| == |ss|
  {
    if ss == [] then [] else [ss[0].category] + Names(ss[1..])
  }

  function SumCounts(ss: seq<CategorySummary>): nat {
    if ss == [] then 0 else ss[0].count + SumCounts(ss[1..])
  }

  function SumTotals(ss: seq<CategorySummary>): real {
    if ss == [] then 0.0 else ss[0].total + SumTotals(ss[1..])
  }

  function SumPercentages(ss: seq<CategorySummary>): real {
    if ss == [] then 0.0 else ss[0].percentage + SumPercentages(ss[1..])
  }

  ghost predicate SortedByTotal(ss: seq<CategorySummary>) {
    forall i, j :: 0 <= i < j < |ss| ==> ss[i].total >= ss[j].total
  }

  lemma {:induction false} SumsAppend(a: seq<CategorySummary>, b: seq<CategorySummary>)
    ensures SumCounts(a + b) == SumCounts(a) + SumCounts(b)
    ensures SumTotals(a + b) == SumTotals(a) + SumTotals(b)
    ensures SumPercentages(a + b) == SumPercentages(a) + SumPercentages(b)
  {
    if a != [] {
      SumsAppend(a[1..], b);
      assert (a + b)[1..] == a[1..] + b;
    } else {
      assert a + b == b;
    }
  }

  lemma {:induction false} NamesAppend(a: seq<CategorySummary>, b: seq<CategorySummary>)
    ensures Names(a + b) == Names(a) + Names(b)
  {
    if a != [] {
      NamesAppend(a[1..], b);
      assert (a + b)[1..] == a[1..] + b;
    } else {
      assert a + b == b;
    }
  }

  /** Inserting adds the summary and keeps all the others. */
  lemma {:induction false} InsertByTotalPermutes(ss: seq<CategorySummary>, x: CategorySummary)
    ensures multiset(InsertByTotal(ss, x)) == multiset(ss) + multiset{x}
    decreases |ss|
  {
    if ss != [] && x.total > ss[|ss| - 1].total {
      var init, last := ss[..|ss| - 1], ss[|ss| - 1];
      InsertByTotalPermutes(init, x);
      assert ss == init + [last];
    }
  }

  lemma NamesSnoc(a: seq<CategorySummary>, y: CategorySummary)
    ensures multiset(Names(a + [y])) == multiset(Names(a)) + multiset{y.category}
  {
    NamesAppend(a, [y]);
  }

  lemma {:induction false} InsertByTotalNames(ss: seq<CategorySummary>, x: CategorySummary)
    ensures multiset(Names(InsertByTotal(ss, x))) == multiset(Names(ss)) + multiset{x.category}
    decreases |ss|
  {
    if ss == [] || !(x.total > ss[|ss| - 1].total) {
      NamesSnoc(ss, x);
    } else {
      var init, last := ss[..|ss| - 1], ss[|ss| - 1];
      var t := InsertByTotal(init, x);
      assert InsertByTotal(ss, x) == t + [last];
      assert ss == init + [last];
      InsertByTotalNames(init, x);
      NamesSnoc(t, last);
      NamesSnoc(init, last);
    }
  }

  lemma {:induction false} InsertByTotalSums(ss: seq<CategorySummary>, x: CategorySummary)
    ensures SumCounts(InsertByTotal(ss, x)) == SumCounts(ss) + x.count
    ensures SumTotals(InsertByTotal(ss, x)) == SumTotals(ss) + x.total
    ensures SumPercentages(InsertByTotal(ss, x)) == SumPercentages(ss) + x.percentage
    decreases |ss|
  {
    SumsAppend(ss, [x]);
    if ss != [] && x.total > ss[|ss| - 1].total {
      var init, last := ss[..|ss| - 1], ss[|ss| - 1];
      InsertByTotalSums(init, x);
      SumsAppend(InsertByTotal(init, x), [last]);
      SumsAppend(init, [last]);
      assert ss == init + [last];
    }
  }

  lemma {:induction false} InsertByTotalSorted(ss: seq<CategorySummary>, x: CategorySummary)
    requires SortedByTotal(ss)
    ensures SortedByTotal(InsertByTotal(ss, x))
    decreases |ss|
  {
    if ss != [] && x.total > ss[|ss| - 1].total {
      var init, last := ss[..|ss| - 1], ss[|ss| - 1];
      assert SortedByTotal(init) by {
        forall i, j | 0 <= i < j < |init| ensures init[i].total >= init[j].total {
          assert init[i] == ss[i] && init[j] == ss[j];
        }
      }
      InsertByTotalSorted(init, x);
      InsertByTotalPermutes(init, x);
      var t := InsertByTotal(init, x);
      var r := t + [last];
      assert InsertByTotal(ss, x) == r;
      forall i, j | 0 <= i < j < |r|
        ensures r[i].total >= r[j].total
      {
        if j == |r| - 1 {
          assert r[i] in multiset(t);
          if r[i] != x {
            assert r[i] in init;
            var k :| 0 <= k < |init| && init[k] == r[i];
            assert ss[k] == r[i];
          }
        } else {
          assert r[i] == t[i] && r[j] == t[j];
        }
      }
    }
  }

  /** Sorting by total orders the summaries by descending total. */
  lemma {:induction false} SortByTotalSorted(ss: seq<CategorySummary>)
    ensures SortedByTotal(SortByTotal(ss))
  {
    if ss != [] {
      SortByTotalSorted(ss[..|ss| - 1]);
      InsertByTotalSorted(SortByTotal(ss[..|ss| - 1]), ss[|ss| - 1]);
    }
  }

  /** Sorting by total keeps every summary. */
  lemma {:induction false} SortByTotalPermutes(ss: seq<CategorySummary>)
    ensures multiset(SortByTotal(ss)) == multiset(ss)
    ensures |SortByTotal(ss)| == |ss|
  {
    if ss != [] {
      var init, last := ss[..|ss| - 1], ss[|ss| - 1];
      SortByTotalPermutes(init);
      InsertByTotalPermutes(SortByTotal(init), last);
      assert ss == init + [last];
    }
  }

  /** Sorting by total keeps the multiset of names. */
  lemma {:induction false} SortByTotalNames(ss: seq<CategorySummary>)
    ensures multiset(Names(SortByTotal(ss))) == multiset(Names(ss))
  {
    if ss != [] {
      var init, last := ss[..|ss| - 1], ss[|ss| - 1];
      SortByTotalNames(init);
      InsertByTotalNames(SortByTotal(init), last);
      NamesAppend(init, [last]);
      assert ss == init + [last];
    }
  }

  /** Sorting by total keeps every sum over the list. */
  lemma {:induction false} SortByTotalSums(ss: seq<CategorySummary>)
    ensures SumCounts(SortByTotal(ss)) == SumCounts(ss)
    ensures SumTotals(SortByTotal(ss)) == SumTotals(ss)
    ensures SumPercentages(SortByTotal(ss)) == SumPercentages(ss)
  {
    if ss != [] {
      var init, last := ss[..|ss| - 1], ss[|ss| - 1];
      SortByTotalSums(init);
      InsertByTotalSums(SortByTotal(init), last);
      SumsAppend(init, [last]);
      assert ss == init + [last];
    }
  }

  // ----- group_by_category: the groups partition the store

  /** Adding one transaction in front adds it to the group of its category. */
  lemma GroupOfCons(t: Transaction, rest: seq<Transaction>, k: string)
    ensures GroupOf([t] + rest, k).count == (if t.category == k then 1 else 0) + GroupOf(rest, k).count
    ensures GroupOf([t] + rest, k).total == (if t.category == k then t.amount else 0.0) + GroupOf(rest, k).total
  {
    var g := GetByCategory(rest, k);
    assert ([t] + rest)[1..] == rest;
    assert GetByCategory([t] + rest, k) == (if t.category == k then [t] else []) + g;
    if t.category == k {
      assert ([t] + g)[1..] == g;
      assert SumAmounts([t] + g) == t.amount + SumAmounts(g);
    } else {
      assert GetByCategory([t] + rest, k) == g;
    }
  }

  lemma {:induction false} GroupsCons(t: Transaction, rest: seq<Transaction>, keys: seq<string>)
    requires multiset(keys)[t.category] <= 1
    ensures GroupCounts(Groups([t] + rest, keys))
         == (if t.category in keys then 1 else 0) + GroupCounts(Groups(rest, keys))
    ensures GroupTotals(Groups([t] + rest, keys))
         == (if t.category in keys then t.amount else 0.0) + GroupTotals(Groups(rest, keys))
  {
    if keys != [] {
      assert keys == [keys[0]] + keys[1..];
      GroupsCons(t, rest, keys[1..]);
      GroupOfCons(t, rest, keys[0]);
      assert t.category == keys[0] ==> t.category !in keys[1..];
    }
  }

  /** When every category of the store is a key exactly once, the groups count
      every transaction once and add up every amount once. */
  lemma {:induction false} GroupsPartition(store: seq<Transaction>, keys: seq<string>)
    requires forall t :: t in store ==> multiset(keys)[t.category] == 1
    ensures GroupCounts(Groups(store, keys)) == |store|
    ensures GroupTotals(Groups(store, keys)) == SumAmounts(store)
  {
    if store == [] {
      GroupsEmpty(keys);
    } else {
      var t, rest := store[0], store[1..];
      assert store == [t] + rest;
      assert t in store;
      GroupsPartition(rest, keys);
      GroupsCons(t, rest, keys);
      assert t.category in multiset(keys);
    }
  }

  lemma {:induction false} GroupsEmpty(keys: seq<string>)
    ensures GroupCounts(Groups([], keys)) == 0
    ensures GroupTotals(Groups([], keys)) == 0.0
  {
    if keys != [] {
      GroupsEmpty(keys[1..]);
    }
  }

  function GroupNames(gs: seq<Group>): seq<string> {
    if gs == [] then [] else [gs[0].category] + GroupNames(gs[1..])
  }

  /** Attaching percentages keeps the names, counts and totals of the groups,
      and the percentages sum to the percentage of the groups' total. */
  lemma {:induction false} WithPercentagesMeasures(gs: seq<Group>, grandTotal: real)
    ensures Names(WithPercentages(gs, grandTotal)) == GroupNames(gs)
    ensures SumCounts(WithPercentages(gs, grandTotal)) == GroupCounts(gs)
    ensures SumTotals(WithPercentages(gs, grandTotal)) == GroupTotals(gs)
    ensures SumPercentages(WithPercentages(gs, grandTotal)) == Percentage(GroupTotals(gs), grandTotal)
  {
    if gs != [] {
      WithPercentagesMeasures(gs[1..], grandTotal);
      if grandTotal != 0.0 {
        assert gs[0].total / grandTotal * 100.0 + GroupTotals(gs[1..]) / grandTotal * 100.0
            == (gs[0].total + GroupTotals(gs[1..])) / grandTotal * 100.0;
      }
    }
  }

  lemma {:induction false} GroupsNamed(store: seq<Transaction>, keys: seq<string>)
    ensures GroupNames(Groups(store, keys)) == keys
  {
    if keys != [] {
      GroupsNamed(store, keys[1..]);
    }
  }

  /** Each summary in the list describes exactly the group of its category. */
  lemma {:induction false} WithPercentagesOfGroups(store: seq<Transaction>, keys: seq<string>, grandTotal: real, s: CategorySummary)
    requires s in WithPercentages(Groups(store, keys), grandTotal)
    ensures s.category in keys
    ensures s.count == |GetByCategory(store, s.category)|
    ensures s.total == SumAmounts(GetByCategory(store, s.category))
    ensures s.average == if s.count == 0 then 0.0 else s.total / s.count as real
    ensures s.percentage == Percentage(s.total, grandTotal)
  {
    if keys != [] && s != WithPercentages(Groups(store, keys), grandTotal)[0] {
      WithPercentagesOfGroups(store, keys[1..], grandTotal, s);
    }
  }

  /** `group_by_category` has one summary per group key. */
  lemma GroupByCategoryNames(store: seq<Transaction>)
    ensures multiset(Names(GroupByCategory(store))) == multiset(GroupKeys(store))
    ensures |GroupByCategory(store)| == |CategorySet(store)|
  {
    if store != [] {
      var keys := GroupKeys(store);
      var groups := Groups(store, keys);
      var ws := WithPercentages(groups, GroupTotals(groups));
      assert GroupByCategory(store) == SortByTotal(ws);
      WithPercentagesMeasures(groups, GroupTotals(groups));
      GroupsNamed(store, keys);
      SortByTotalNames(ws);
      SortByTotalPermutes(ws);
    }
  }

  /** `group_by_category` lists every category of the store exactly once. */
  lemma GroupByCategoryOnce(store: seq<Transaction>, c: string)
    ensures multiset(Names(GroupByCategory(store)))[c] == if c in CategorySet(store) then 1 else 0
  {
    GroupByCategoryNames(store);
  }

  /** `group_by_category` lists the summaries by descending total. */
  lemma GroupByCategorySorted(store: seq<Transaction>)
    ensures SortedByTotal(GroupByCategory(store))
  {
    if store != [] {
      var groups := Groups(store, GroupKeys(store));
      SortByTotalSorted(WithPercentages(groups, GroupTotals(groups)));
    }
  }

  /** The counts of the summaries add up to the number of transactions and
      their totals to the sum of all amounts. */
  lemma GroupByCategoryPartition(store: seq<Transaction>)
    ensures SumCounts(GroupByCategory(store)) == |store|
    ensures SumTotals(GroupByCategory(store)) == SumAmounts(store)
  {
    if store != [] {
      var keys := GroupKeys(store);
      var groups := Groups(store, keys);
      forall t | t in store
        ensures multiset(keys)[t.category] == 1
      {
        assert t.category in CategorySet(store);
      }
      GroupsPartition(store, keys);
      WithPercentagesMeasures(groups, GroupTotals(groups));
      SortByTotalSums(WithPercentages(groups, GroupTotals(groups)));
    }
  }

  /** Every summary is the count, sum, mean and share of the stored
      transactions of its category; the share is taken of the total of all
      amounts. */
  lemma GroupByCategorySummaries(store: seq<Transaction>, s: CategorySummary)
    requires s in GroupByCategory(store)
    ensures s.category in CategorySet(store)
    ensures s.count == |GetByCategory(store, s.category)| && s.count > 0
    ensures s.total == SumAmounts(GetByCategory(store, s.category))
    ensures s.average == s.total / s.count as real
    ensures s.percentage == Percentage(s.total, SumAmounts(store))
  {
    var keys := GroupKeys(store);
    var groups := Groups(store, keys);
    var ws := WithPercentages(groups, GroupTotals(groups));
    SortByTotalPermutes(ws);
    assert s in multiset(ws);
    WithPercentagesOfGroups(store, keys, GroupTotals(groups), s);
    assert s.category in multiset(keys);
    var t :| t in store && t.category == s.category;
    assert t in GetByCategory(store, s.category);
    GroupByCategoryPartition(store);
    GroupsTotal(store);
  }

  lemma GroupsTotal(store: seq<Transaction>)
    requires store != []
    ensures GroupTotals(Groups(store, GroupKeys(store))) == SumAmounts(store)
  {
    var keys := GroupKeys(store);
    forall t | t in store
      ensures multiset(keys)[t.category] == 1
    {
      assert t.category in CategorySet(store);
    }
    GroupsPartition(store, keys);
  }

  lemma SelfPercentage(x: real)
    requires x != 0.0
    ensures Percentage(x, x) == 100.0
  {
    assert x / x == 1.0;
  }

  /** The percentages add up to 100 unless the amounts cancel out. */
  lemma GroupByCategoryPercentages(store: seq<Transaction>)
    requires SumAmounts(store) != 0.0
    ensures SumPercentages(GroupByCategory(store)) == 100.0
  {
    var groups := Groups(store, GroupKeys(store));
    var g := GroupTotals(groups);
    assert store != [];
    assert GroupByCategory(store) == SortByTotal(WithPercentages(groups, g));
    GroupsTotal(store);
    WithPercentagesMeasures(groups, g);
    SortByTotalSums(WithPercentages(groups, g));
    SelfPercentage(g);
  }

  // ----- get_total_stats

  /** `get_total_stats`: the number of transactions, the sum of their amounts
      and the mean amount (0 for an empty store). */
  function GetTotalStats(store: seq<Transaction>): (r: TotalStats)
    ensures r.totalCount == |store| && r.totalAmount == SumAmounts(store)
    ensures store == [] ==> r.averageAmount == 0.0
    ensures store != [] ==> r.averageAmount == r.totalAmount / r.totalCount as real
  {
    if store == [] then TotalStats(0, 0.0, 0.0)
    else TotalStats(|store|, SumAmounts(store), SumAmounts(store) / |store| as real)
  }

  /** The global totals agree with the sums over the per-category summaries. */
  lemma TotalStatsMatchSummaries(store: seq<Transaction>)
    ensures GetTotalStats(store).totalCount == SumCounts(GroupByCategory(store))
    ensures GetTotalStats(store).totalAmount == SumTotals(GroupByCategory(store))
  {
    GroupByCategoryPartition(store);
  }

  // ----- get_top_categories

  /** The end of Python's slice `[:n]` on a list of length `len`. */
  function SliceEnd(len: nat, n: int): (e: nat)
    ensures e <= len
    ensures n >= 0 ==> e == if n < len then n else len
    ensures n < 0 ==> e == if len + n > 0 then len + n else 0
  {
    if n >= 0 then (if n < len then n else len)
    else if len + n > 0 then len + n else 0
  }

  /** `get_top_categories(n)`: `group_by_category()[:n]`. */
  function GetTopCategories(store: seq<Transaction>, n: int): (r: seq<CategorySummary>)
    ensures |r| <= |GroupByCategory(store)| && r == GroupByCategory(store)[..|r|]
  {
    Prefix(GroupByCategory(store), SliceEnd(|GroupByCategory(store)|, n))
  }

  /** The first `k` summaries. */
  function Prefix(ss: seq<CategorySummary>, k: nat): (r: seq<CategorySummary>)
    requires k <= |ss|
    ensures |r| == k && r == ss[..k]
  {
    ss[..k]
  }

  /** In a list sorted by descending total, every summary before a cut has at
      least the total of every summary after it. */
  lemma SortedCut(all: seq<CategorySummary>, k: nat)
    requires SortedByTotal(all) && k <= |all|
    ensures forall s, o :: s in all[..k] && o in all[k..] ==> s.total >= o.total
  {
    forall s, o | s in all[..k] && o in all[k..]
      ensures s.total >= o.total
    {
      var i :| 0 <= i < k && all[..k][i] == s;
      var j :| 0 <= j < |all| - k && all[k..][j] == o;
      assert all[i] == s && all[k + j] == o;
    }
  }

  /** The top categories are a prefix of the summaries, and none of the
      categories left out has a larger total than one that is kept. */
  lemma TopCategoriesAreTop(store: seq<Transaction>, n: int)
    ensures GetTopCategories(store, n) == GroupByCategory(store)[..|GetTopCategories(store, n)|]
    ensures n >= 0 ==> |GetTopCategories(store, n)| == if n < |CategorySet(store)| then n else |CategorySet(store)|
    ensures forall s, o :: s in GetTopCategories(store, n) && o in GroupByCategory(store)[|GetTopCategories(store, n)|..]
              ==> s.total >= o.total
  {
    var all := GroupByCategory(store);
    GroupByCategorySorted(store);
    GroupByCategoryNames(store);
    SortedCut(all, SliceEnd(|all|, n));
  }

  // ----- names of the summaries

  lemma {:induction false} NamesMember(ss: seq<CategorySummary>, c: string)
    ensures c in Names(ss) <==> exists s :: s in ss && s.category == c
  {
    if ss != [] {
      NamesMember(ss[1..], c);
      assert ss == [ss[0]] + ss[1..];
    }
  }

  function WithoutCategory(ss: seq<CategorySummary>, c: string): (r: seq<CategorySummary>)
    ensures |r| <= |ss|
    ensures forall s :: s in r <==> s in ss && s.category != c
  {
    if ss == [] then []
    else (if ss[0].category != c then [ss[0]] else []) + WithoutCategory(ss[1..], c)
  }

  lemma {:induction false} WithoutCategoryCount(ss: seq<CategorySummary>, c: string)
    ensures |WithoutCategory(ss, c)| == |ss| - multiset(Names(ss))[c]
  {
    if ss != [] {
      WithoutCategoryCount(ss[1..], c);
    }
  }

  // ----- get_uncategorized_count

  /** `get_uncategorized_count`: the stored transactions still in the default
      category. */
  function GetUncategorizedCount(store: seq<Transaction>): (n: nat)
    ensures n <= |store|
    ensures n == 0 <==> forall t :: t in store ==> t.category != Uncategorized
  {
    var ts := GetByCategory(store, Uncategorized);
    assert ts != [] ==> ts[0] in ts;
    |ts|
  }

  /** The count of the "Uncategorized" summary is the uncategorized count. */
  lemma UncategorizedCountMatchesSummary(store: seq<Transaction>, s: CategorySummary)
    requires s in GroupByCategory(store) && s.category == Uncategorized
    ensures s.count == GetUncategorizedCount(store) > 0
  {
    GroupByCategorySummaries(store, s);
  }

  /** A category has stored transactions exactly when it is in the store. */
  lemma GetByCategoryEmpty(store: seq<Transaction>, category: string)
    ensures GetByCategory(store, category) == [] <==> category !in CategorySet(store)
  {
    if category in CategorySet(store) {
      var t :| t in store && t.category == category;
      assert t in GetByCategory(store, category);
    }
  }

  /** The uncategorized count is 0 exactly when no summary is named
      "Uncategorized". */
  lemma UncategorizedCountZero(store: seq<Transaction>)
    ensures GetUncategorizedCount(store) == 0 <==> Uncategorized !in Names(GroupByCategory(store))
  {
    GetByCategoryEmpty(store, Uncategorized);
    GroupByCategoryOnce(store, Uncategorized);
    assert Uncategorized in Names(GroupByCategory(store))
       <==> Uncategorized in multiset(Names(GroupByCategory(store)));
  }

  // ----- get_category_count

  /** `get_category_count`: the summaries other than "Uncategorized". */
  function GetCategoryCount(store: seq<Transaction>): (n: nat)
    ensures n <= |GroupByCategory(store)|
  {
    |WithoutCategory(GroupByCategory(store), Uncategorized)|
  }

  /** The category count is the number of distinct categories in the store,
      the default category aside. */
  lemma CategoryCountIsDistinct(store: seq<Transaction>)
    ensures GetCategoryCount(store) == |CategorySet(store) - {Uncategorized}|
  {
    var all := GroupByCategory(store);
    WithoutCategoryCount(all, Uncategorized);
    GroupByCategoryNames(store);
    GroupByCategoryOnce(store, Uncategorized);
  }

  // ----- get_all_categories

  /** `get_all_categories`: the summaries' names, sorted. */
  function GetAllCategories(store: seq<Transaction>): seq<string> {
    SortByKey(Names(GroupByCategory(store)), Identity)
  }

  /** All categories are listed in alphabetical order, each category of the
      store exactly once. */
  lemma AllCategoriesSortedOnce(store: seq<Transaction>)
    ensures SortedByKey(GetAllCategories(store), Identity)
    ensures forall c :: multiset(GetAllCategories(store))[c] == if c in CategorySet(store) then 1 else 0
  {
    SortByKeySorted(Names(GroupByCategory(store)), Identity);
    SortByKeyPermutes(Names(GroupByCategory(store)), Identity);
    GroupByCategoryNames(store);
  }

  // ----- get_transactions_by_category

  function Detail(t: Transaction): TransactionDetail {
    TransactionDetail(t.date, t.description, t.amount)
  }

  function Details(ts: seq<Transaction>): (r: seq<TransactionDetail>)
    ensures |r| == |ts|
    ensures forall i :: 0 <= i < |ts| ==> r[i] == Detail(ts[i])
  {
    seq(|ts|, i requires 0 <= i < |ts| => Detail(ts[i]))
  }

  function DateOf(d: TransactionDetail): string { d.date }

  /** The drill-down: the category's transactions in id order, projected, then
      stably sorted by date. */
  function DrillDown(store: seq<Transaction>, category: string): seq<TransactionDetail> {
    SortByKey(Details(GetByCategory(store, category)), DateOf)
  }

  /** `get_transactions_by_category`, with the projection the report's
      `TransactionDetail` prints: date, description and amount. */
  method GetTransactionsByCategory(store: seq<Transaction>, category: string)
    returns (details: seq<TransactionDetail>)
    ensures details == DrillDown(store, category)
  {
    var transactions := GetByCategory(store, category);
    if |transactions| == 0 {
      return [];
    }
    var a := new TransactionDetail[|transactions|];
    var i := 0;
    while i < |transactions|
      invariant 0 <= i <= |transactions|
      invariant forall k :: 0 <= k < i ==> a[k] == Detail(transactions[k])
    {
      a[i] := Detail(transactions[i]);
      i := i + 1;
    }
    assert a[..] == Details(transactions);
    SortInPlace(a, DateOf);
    details := a[..];
  }

  /** The drill-down is in date order and holds one detail per stored
      transaction of the category. */
  lemma DrillDownSortedPermutation(store: seq<Transaction>, category: string)
    ensures SortedByKey(DrillDown(store, category), DateOf)
    ensures multiset(DrillDown(store, category)) == multiset(Details(GetByCategory(store, category)))
    ensures |DrillDown(store, category)| == |GetByCategory(store, category)|
  {
    SortByKeySorted(Details(GetByCategory(store, category)), DateOf);
    SortByKeyPermutes(Details(GetByCategory(store, category)), DateOf);
  }

  /** Transactions of one date keep their id order (the sort is stable). */
  lemma DrillDownStable(store: seq<Transaction>, category: string, date: string)
    ensures WithKey(DrillDown(store, category), DateOf, date)
         == WithKey(Details(GetByCategory(store, category)), DateOf, date)
  {
    SortByKeyStable(Details(GetByCategory(store, category)), DateOf, date);
  }

  // ----- get_transactions_by_category as written

  /** The function as written reads `nr_1` and `nr_2` from each stored
      transaction, attributes a `Transaction` does not have: it succeeds only
      when there is nothing to read them from. */
  function GetTransactionsByCategoryAsWritten(store: seq<Transaction>, category: string)
    : (r: Result<seq<TransactionDetail>, string>)
    ensures r.Success? <==> GetByCategory(store, category) == []
    ensures r.Success? ==> r.value == []
  {
    if GetByCategory(store, category) == [] then Success([])
    else Failure("AttributeError: 'Transaction' object has no attribute 'nr_1'")
  }

  /** A one-transaction store whose drill-down the corrected function lists
      and the function as written fails on. */
  lemma AsWrittenFailsOnStoredCategory()
    ensures var t := Transaction("2024-01-15", -4.5, "STARBUCKS #123", "Coffee", Some(1));
            GetTransactionsByCategoryAsWritten([t], "Coffee").Failure?
            && DrillDown([t], "Coffee") == [TransactionDetail("2024-01-15", "STARBUCKS #123", -4.5)]
  {
    var t := Transaction("2024-01-15", -4.5, "STARBUCKS #123", "Coffee", Some(1));
    assert GetByCategory([t], "Coffee") == [t];
    assert Details([t]) == [TransactionDetail("2024-01-15", "STARBUCKS #123", -4.5)];
  }
}
