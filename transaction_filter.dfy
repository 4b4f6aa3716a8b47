/** transaction_filter.py: dropping transactions whose description contains an
    ignore pattern. */
module TransactionFilters {
  import opened Strings
  import opened Models

  /** The ignore patterns, stored lower-cased. */
  datatype TransactionFilter = TransactionFilter(ignorePatterns: seq<string>)

  /** The constructor: the patterns are lower-cased once, order kept. */
  function NewTransactionFilter(patterns: seq<string>): (f: TransactionFilter)
    ensures |f.ignorePatterns| == |patterns|
    ensures forall i :: 0 <= i < |patterns| ==> f.ignorePatterns[i] == Lower(patterns[i])
  {
    TransactionFilter(seq(|patterns|, i requires 0 <= i < |patterns| => Lower(patterns[i])))
  }

  /** The early-return scan of `should_ignore` over the stored patterns. */
  function AnyPatternIn(patterns: seq<string>, descLower: string): (r: bool)
    ensures r <==> exists i :: 0 <= i < |patterns| && Contains(descLower, patterns[i])
  {
    if patterns == [] then false
    else if Contains(descLower, patterns[0]) then true
    else
      var r := AnyPatternIn(patterns[1..], descLower);
      assert forall i :: 1 <= i < |patterns| ==> patterns[i] == patterns[1..][i - 1];
      r
  }

  /** `should_ignore`: some stored pattern occurs in the lower-cased description. */
  function ShouldIgnore(f: TransactionFilter, description: string): (r: bool)
    ensures r <==> exists p :: p in f.ignorePatterns && Contains(Lower(description), p)
  {
    AnyPatternIn(f.ignorePatterns, Lower(description))
  }

  /** `filter_transactions`: the list comprehension keeping the transactions not
      to be ignored. */
  function FilterTransactions(f: TransactionFilter, ts: seq<Transaction>): (r: seq<Transaction>)
    ensures |r| <= |ts|
    ensures forall t :: t in r ==> t in ts && !ShouldIgnore(f, t.description)
  {
    if ts == [] then []
    else (if ShouldIgnore(f, ts[0].description) then [] else [ts[0]]) + FilterTransactions(f, ts[1..])
  }

  /** `a` is `b` with some elements removed, the rest in their order. */
  ghost predicate IsSubsequence(a: seq<Transaction>, b: seq<Transaction>) {
    if a == [] then true
    else if b == [] then false
    else (a[0] == b[0] && IsSubsequence(a[1..], b[1..])) || IsSubsequence(a, b[1..])
  }

  /** Filtering keeps the survivors in their original relative order. */
  lemma {:induction false} FilterIsSubsequence(f: TransactionFilter, ts: seq<Transaction>)
    ensures IsSubsequence(FilterTransactions(f, ts), ts)
  {
    if ts != [] {
      FilterIsSubsequence(f, ts[1..]);
      var rest := FilterTransactions(f, ts[1..]);
      if !ShouldIgnore(f, ts[0].description) {
        assert ([ts[0]] + rest)[1..] == rest;
      } else {
        assert FilterTransactions(f, ts) == rest;
      }
    }
  }

  /** Exactly the transactions that are not ignored survive, each as often as it
      occurs in the input. */
  lemma {:induction false} FilterKeepsExactly(f: TransactionFilter, ts: seq<Transaction>, t: Transaction)
    ensures multiset(FilterTransactions(f, ts))[t]
         == if ShouldIgnore(f, t.description) then 0 else multiset(ts)[t]
  {
    if ts != [] {
      FilterKeepsExactly(f, ts[1..], t);
      var rest := FilterTransactions(f, ts[1..]);
      assert ts == [ts[0]] + ts[1..];
      if ShouldIgnore(f, ts[0].description) {
        assert FilterTransactions(f, ts) == rest;
      } else {
        assert FilterTransactions(f, ts) == [ts[0]] + rest;
      }
    }
  }

  /** The number of ignored transactions; `original_count - len(filtered)`. */
  function IgnoredCount(f: TransactionFilter, ts: seq<Transaction>): (n: nat)
  {
    if ts == [] then 0
    else (if ShouldIgnore(f, ts[0].description) then 1 else 0) + IgnoredCount(f, ts[1..])
  }

  lemma {:induction false} FilterCount(f: TransactionFilter, ts: seq<Transaction>)
    ensures |FilterTransactions(f, ts)| == |ts| - IgnoredCount(f, ts)
  {
    if ts != [] {
      FilterCount(f, ts[1..]);
    }
  }

  /** With no ignore patterns the filter keeps everything. */
  lemma {:induction false} FilterWithoutPatterns(ts: seq<Transaction>)
    ensures FilterTransactions(NewTransactionFilter([]), ts) == ts
  {
    if ts != [] {
      FilterWithoutPatterns(ts[1..]);
    }
  }

  /** Filtering an already filtered list changes nothing. */
  lemma {:induction false} FilterIdempotent(f: TransactionFilter, ts: seq<Transaction>)
    ensures FilterTransactions(f, FilterTransactions(f, ts)) == FilterTransactions(f, ts)
  {
    if ts != [] {
      FilterIdempotent(f, ts[1..]);
      var rest := FilterTransactions(f, ts[1..]);
      if !ShouldIgnore(f, ts[0].description) {
        assert ([ts[0]] + rest)[0] == ts[0] && ([ts[0]] + rest)[1..] == rest;
      } else {
        assert FilterTransactions(f, ts) == rest;
      }
    }
  }
}
