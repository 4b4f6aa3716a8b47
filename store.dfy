/** The part of database.py the analytics read: the stored transactions in id
    order, and the query by category. */
module Store {
  import opened Models

  /** `get_by_category`: the stored transactions whose category is exactly
      `category`, in id order. */
  function GetByCategory(store: seq<Transaction>, category: string): (r: seq<Transaction>)
    ensures |r| <= |store|
    ensures forall t :: t in r <==> t in store && t.category == category
  {
    if store == [] then []
    else (if store[0].category == category then [store[0]] else []) + GetByCategory(store[1..], category)
  }

  /** The query keeps id order: it distributes over concatenation. */
  lemma {:induction false} GetByCategoryAppend(a: seq<Transaction>, b: seq<Transaction>, category: string)
    ensures GetByCategory(a + b, category) == GetByCategory(a, category) + GetByCategory(b, category)
  {
    if a != [] {
      GetByCategoryAppend(a[1..], b, category);
      assert (a + b)[1..] == a[1..] + b;
    } else {
      assert a + b == b;
    }
  }

  /** Each matching transaction is returned as often as it is stored. */
  lemma {:induction false} GetByCategoryExact(store: seq<Transaction>, category: string, t: Transaction)
    ensures multiset(GetByCategory(store, category))[t]
         == if t.category == category then multiset(store)[t] else 0
  {
    if store != [] {
      GetByCategoryExact(store[1..], category, t);
      assert store == [store[0]] + store[1..];
    }
  }
}
