/** categorizer.py: first-match-wins assignment of a category name to each
    transaction description. */
module Categorizer {
  import opened Wrappers
  import opened Strings
  import opened Models

  /** The categories in precedence order and the name given when none matches. */
  datatype TransactionCategorizer = TransactionCategorizer(
    categories: seq<Category>,
    defaultCategory: string)

  /** Where the nested scan stops: the category and, within it, the merchant. */
  datatype Hit = Hit(category: nat, merchant: nat)

  /** The nested scan: the first category, in list order, with a merchant that
      occurs in the lower-cased description, and the first such merchant. */
  function FindMatch(categories: seq<Category>, descLower: string): (r: Option<Hit>)
    ensures r.Some? ==> (r.value.category < |categories| &&
                         MatchingMerchant(categories[r.value.category].merchants, descLower) == Some(r.value.merchant))
    ensures r.Some? ==> forall k :: 0 <= k < r.value.category ==>
                          MatchingMerchant(categories[k].merchants, descLower).None?
    ensures r.None? <==> (forall k :: 0 <= k < |categories| ==>
                            MatchingMerchant(categories[k].merchants, descLower).None?)
  {
    if categories == [] then None
    else match MatchingMerchant(categories[0].merchants, descLower)
      case Some(m) => Some(Hit(0, m))
      case None =>
        var rest := FindMatch(categories[1..], descLower);
        assert forall k :: 1 <= k < |categories| ==> categories[k] == categories[1..][k - 1];
        match rest
        case None => None
        case Some(h) => Some(Hit(h.category + 1, h.merchant))
  }

  /** `categorize_transaction`. */
  function CategorizeTransaction(c: TransactionCategorizer, description: string): (r: string)
    ensures description == "" ==> r == c.defaultCategory
    ensures r == c.defaultCategory || exists k :: 0 <= k < |c.categories| && c.categories[k].name == r
    // first-match precedence: the earliest matching category wins
    ensures forall k ::
              (description != "" && 0 <= k < |c.categories| && Matches(c.categories[k], description)
               && (forall k' :: 0 <= k' < k ==> !Matches(c.categories[k'], description)))
              ==> r == c.categories[k].name
    // no category matches: the default
    ensures (forall k :: 0 <= k < |c.categories| ==> !Matches(c.categories[k], description))
      ==> r == c.defaultCategory
  {
    if description == "" then c.defaultCategory
    else match FindMatch(c.categories, Lower(description))
      case None => c.defaultCategory
      case Some(h) => c.categories[h.category].name
  }

  /** `get_matching_category`: the category name and the merchant, as written in
      the category, that matched; the default and no merchant otherwise. */
  function GetMatchingCategory(c: TransactionCategorizer, description: string): (r: (string, Option<string>))
    ensures r.0 == CategorizeTransaction(c, description)
    ensures r.1.None? <==>
              (description == "" || forall k :: 0 <= k < |c.categories| ==> !Matches(c.categories[k], description))
    ensures r.1.Some? ==> exists k ::
              (0 <= k < |c.categories| && c.categories[k].name == r.0
               && r.1.value in c.categories[k].merchants && Contains(Lower(description), Lower(r.1.value)))
    // the merchant is the first matching one of the earliest matching category
    ensures r.1.Some? ==> (FindMatch(c.categories, Lower(description)).Some?
              && r.1.value == c.categories[FindMatch(c.categories, Lower(description)).value.category]
                              .merchants[FindMatch(c.categories, Lower(description)).value.merchant])
  {
    if description == "" then (c.defaultCategory, None)
    else match FindMatch(c.categories, Lower(description))
      case None => (c.defaultCategory, None)
      case Some(h) =>
        var cat := c.categories[h.category];
        assert cat.merchants[h.merchant] in cat.merchants;
        (cat.name, Some(cat.merchants[h.merchant]))
  }

  /** The result depends on the description only through its lower-case form. */
  lemma CategorizeIgnoresCase(c: TransactionCategorizer, d1: string, d2: string)
    requires Lower(d1) == Lower(d2)
    ensures CategorizeTransaction(c, d1) == CategorizeTransaction(c, d2)
  {
    assert |d1| == |Lower(d1)| == |d2|;
  }

  /** Once a category matches, the categories after it are never consulted. */
  lemma {:induction false} LaterCategoriesIgnored(categories: seq<Category>, more: seq<Category>,
                                                  default: string, description: string)
    requires exists k :: 0 <= k < |categories| && Matches(categories[k], description)
    ensures CategorizeTransaction(TransactionCategorizer(categories + more, default), description)
         == CategorizeTransaction(TransactionCategorizer(categories, default), description)
  {
    var k :| 0 <= k < |categories| && Matches(categories[k], description);
    if description != "" {
      FindMatchPrefix(categories, more, Lower(description), k);
    }
  }

  lemma {:induction false} FindMatchPrefix(categories: seq<Category>, more: seq<Category>, descLower: string, k: nat)
    requires k < |categories| && MatchingMerchant(categories[k].merchants, descLower).Some?
    ensures FindMatch(categories + more, descLower) == FindMatch(categories, descLower)
  {
    if MatchingMerchant(categories[0].merchants, descLower).None? {
      assert (categories + more)[1..] == categories[1..] + more;
      FindMatchPrefix(categories[1..], more, descLower, k - 1);
    }
  }

  /** What `categorize_batch` leaves in the list: every transaction with its
      category set from its description, nothing else changed. */
  function CategorizeAll(c: TransactionCategorizer, ts: seq<Transaction>): (r: seq<Transaction>)
    ensures |r| == |ts|
    ensures forall i :: 0 <= i < |ts| ==> r[i] == Recategorized(c, ts[i])
  {
    if ts == [] then [] else [Recategorized(c, ts[0])] + CategorizeAll(c, ts[1..])
  }

  /** One transaction with its category set from its description. */
  function Recategorized(c: TransactionCategorizer, t: Transaction): Transaction {
    t.(category := CategorizeTransaction(c, t.description))
  }

  /** Categorizing an already categorized batch changes nothing. */
  lemma CategorizeAllIdempotent(c: TransactionCategorizer, ts: seq<Transaction>)
    ensures CategorizeAll(c, CategorizeAll(c, ts)) == CategorizeAll(c, ts)
  {
  }

  /** `categorize_batch`: sets the category of every transaction of the list in
      place and returns the same list. */
  method CategorizeBatch(c: TransactionCategorizer, transactions: array<Transaction>)
    returns (r: array<Transaction>)
    modifies transactions
    ensures r == transactions
    ensures transactions[..] == CategorizeAll(c, old(transactions[..]))
  {
    r := transactions;
    if transactions.Length == 0 {
      return;
    }
    ghost var before := transactions[..];
    var i := 0;
    while i < transactions.Length
      invariant 0 <= i <= transactions.Length
      invariant forall k :: 0 <= k < i ==> transactions[k] == Recategorized(c, before[k])
      invariant forall k :: i <= k < transactions.Length ==> transactions[k] == before[k]
    {
      transactions[i] := Recategorized(c, transactions[i]);
      i := i + 1;
    }
    assert transactions[..] == CategorizeAll(c, before);
  }
}
