/** The records of models.py: a transaction and a category with its merchant
    patterns. */
module Models {
  import opened Wrappers
  import opened Strings

  /** The category every new transaction starts with. */
  const Uncategorized: string := "Uncategorized"

  /** One financial event. `amount` keeps its sign; `id` is set by the store. */
  datatype Transaction = Transaction(
    date: string,
    amount: real,
    description: string,
    category: string,
    id: Option<int>)

  /** `Transaction(date, amount, description)` with the dataclass defaults. */
  function NewTransaction(date: string, amount: real, description: string): (t: Transaction)
    ensures t.date == date && t.amount == amount && t.description == description
    ensures t.category == Uncategorized && t.id == None
  {
    Transaction(date, amount, description, Uncategorized, None)
  }

  /** A value stored in the dictionary `to_dict` builds. */
  datatype DictValue = Text(s: string) | Number(r: real)

  /** `to_dict`: the row written to the store, without the id. */
  function ToDict(t: Transaction): (d: map<string, DictValue>)
    ensures d.Keys == {"date", "amount", "description", "category"}
    ensures "id" !in d
    ensures d["date"] == Text(t.date) && d["amount"] == Number(t.amount)
    ensures d["description"] == Text(t.description) && d["category"] == Text(t.category)
  {
    map["date" := Text(t.date), "amount" := Number(t.amount),
        "description" := Text(t.description), "category" := Text(t.category)]
  }

  /** Two transactions that differ at most in their id give the same row. */
  lemma ToDictIgnoresId(t: Transaction, id: Option<int>)
    ensures ToDict(t.(id := id)) == ToDict(t)
  {
  }

  /** A named spending bucket with its merchant patterns, in precedence order. */
  datatype Category = Category(name: string, merchants: seq<string>)

  /** The first merchant, in list order, whose lower-case form occurs in the
      (already lower-cased) description. */
  function MatchingMerchant(merchants: seq<string>, descLower: string): (r: Option<nat>)
    ensures r.Some? ==> r.value < |merchants| && Contains(descLower, Lower(merchants[r.value]))
    ensures r.Some? ==> forall k :: 0 <= k < r.value ==> !Contains(descLower, Lower(merchants[k]))
    ensures r.None? <==> forall k :: 0 <= k < |merchants| ==> !Contains(descLower, Lower(merchants[k]))
  {
    if merchants == [] then None
    else if Contains(descLower, Lower(merchants[0])) then Some(0)
    else match MatchingMerchant(merchants[1..], descLower)
      case None => None
      case Some(k) => Some(k + 1)
  }

  /** `Category.matches`: some merchant, lower-cased, occurs in the lower-cased
      description. */
  predicate Matches(c: Category, description: string) {
    MatchingMerchant(c.merchants, Lower(description)).Some?
  }

  lemma MatchesIff(c: Category, description: string)
    ensures Matches(c, description)
        <==> exists m :: m in c.merchants && Contains(Lower(description), Lower(m))
  {
    var r := MatchingMerchant(c.merchants, Lower(description));
    if r.Some? {
      assert c.merchants[r.value] in c.merchants;
    }
  }

  /** A category without merchants matches nothing. */
  lemma NoMerchantsMatchNothing(name: string, description: string)
    ensures !Matches(Category(name, []), description)
  {
  }

  /** An empty merchant pattern matches every description. */
  lemma EmptyMerchantMatchesAll(name: string, merchants: seq<string>, description: string)
    requires "" in merchants
    ensures Matches(Category(name, merchants), description)
  {
    ContainsEmpty(Lower(description));
    MatchesIff(Category(name, merchants), description);
  }
}
