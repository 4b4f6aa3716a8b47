/** category_loader.py: the category table, read column by column. A loaded
    file is a sequence of columns; a cell is `None` where pandas reads a
    blank (NaN) and otherwise the cell's text. */
module CategoryLoader {
  import opened Wrappers
  import opened Strings
  import opened Models

  datatype Column = Column(header: string, cells: seq<Option<string>>)

  /** The column that holds ignore patterns rather than a category. */
  predicate IsIgnoreHeader(header: string) {
    Lower(header) == "ignore"
  }

  /** A non-blank cell is kept when, stripped, it is non-empty and is not the
      text "nan" in any case. */
  predicate Keeps(text: string) {
    Strip(text) != "" && Lower(Strip(text)) != "nan"
  }

  /** What one cell contributes: nothing when blank or dropped, else its
      stripped text. */
  function CleanCell(cell: Option<string>): seq<string> {
    match cell
    case None => []
    case Some(text) => if Keeps(text) then [Strip(text)] else []
  }

  /** `dropna()` followed by the strip-and-filter comprehension. */
  function CleanCells(cells: seq<Option<string>>): seq<string> {
    if cells == [] then [] else CleanCell(cells[0]) + CleanCells(cells[1..])
  }

  /** Cleaning keeps row order: it distributes over concatenation. */
  lemma {:induction false} CleanCellsAppend(a: seq<Option<string>>, b: seq<Option<string>>)
    ensures CleanCells(a + b) == CleanCells(a) + CleanCells(b)
  {
    if a != [] {
      CleanCellsAppend(a[1..], b);
      assert (a + b)[1..] == a[1..] + b;
    } else {
      assert a + b == b;
    }
  }

  /** A blank cell ends nothing: the cells after it are still read. */
  lemma BlankCellSkipped(before: seq<Option<string>>, after: seq<Option<string>>)
    ensures CleanCells(before + [None] + after) == CleanCells(before) + CleanCells(after)
  {
    CleanCellsAppend(before + [None], after);
    CleanCellsAppend(before, [None]);
  }

  /** Every cleaned cell is non-empty, carries no surrounding whitespace, is
      not "nan", and comes from a kept cell of the column. */
  lemma {:induction false} CleanCellsClean(cells: seq<Option<string>>, m: string)
    requires m in CleanCells(cells)
    ensures m != "" && !IsSpace(m[0]) && !IsSpace(m[|m| - 1])
    ensures Lower(m) != "nan"
    ensures exists text :: Some(text) in cells && Keeps(text) && m == Strip(text)
  {
    assert cells != [];
    if cells[0].Some? && Keeps(cells[0].value) && m == Strip(cells[0].value) {
      StripTrims(cells[0].value);
      assert Some(cells[0].value) in cells;
    } else {
      CleanCellsClean(cells[1..], m);
      var text :| Some(text) in cells[1..] && Keeps(text) && m == Strip(text);
      assert Some(text) in cells;
    }
  }

  /** Every kept cell is in the cleaned list. */
  lemma {:induction false} CleanCellsComplete(cells: seq<Option<string>>, text: string)
    requires Some(text) in cells && Keeps(text)
    ensures Strip(text) in CleanCells(cells)
  {
    if cells[0] != Some(text) {
      CleanCellsComplete(cells[1..], text);
    }
  }

  // ----- load_categories

  /** The categories of a table, in column order: every column except the
      ignore column whose cleaned cells are not empty. */
  function CategoriesOf(table: seq<Column>): seq<Category> {
    Collect(table, ColumnCategory)
  }

  /** `f` applied to each element, the results concatenated in order. */
  function Collect<A, B>(xs: seq<A>, f: A -> seq<B>): seq<B> {
    if xs == [] then [] else Collect(xs[..|xs| - 1], f) + f(xs[|xs| - 1])
  }

  /** The category one column yields, if any. */
  function ColumnCategory(column: Column): seq<Category> {
    var merchants := CleanCells(column.cells);
    if IsIgnoreHeader(column.header) || merchants == [] then [] else [Category(column.header, merchants)]
  }

  /** `load_categories` on a read table: the categories, or the error raised
      when no column yields one. */
  method LoadCategories(table: seq<Column>) returns (r: Result<seq<Category>, string>)
    ensures CategoriesOf(table) == [] ==> r == Failure("No categories found in file")
    ensures CategoriesOf(table) != [] ==> r == Success(CategoriesOf(table))
  {
    var categories: seq<Category> := [];
    for i := 0 to |table|
      invariant categories == CategoriesOf(table[..i])
    {
      assert table[..i + 1][..i] == table[..i];
      var column := table[i];
      if IsIgnoreHeader(column.header) {
        continue;
      }
      var merchants := CleanCells(column.cells);
      if merchants != [] {
        categories := categories + [Category(column.header, merchants)];
      }
    }
    assert table[..|table|] == table;
    if categories == [] {
      return Failure("No categories found in file");
    }
    return Success(categories);
  }

  lemma {:induction false} CollectAppend<A, B>(a: seq<A>, b: seq<A>, f: A -> seq<B>)
    ensures Collect(a + b, f) == Collect(a, f) + Collect(b, f)
    decreases |b|
  {
    if b == [] {
      assert a + b == a;
    } else {
      var init := b[..|b| - 1];
      CollectAppend(a, init, f);
      assert (a + b)[..|a + b| - 1] == a + init;
    }
  }

  /** The categories of two halves of a table are those of the whole, in
      column order. */
  lemma CategoriesOfAppend(a: seq<Column>, b: seq<Column>)
    ensures CategoriesOf(a + b) == CategoriesOf(a) + CategoriesOf(b)
  {
    CollectAppend(a, b, ColumnCategory);
  }

  /** Every category comes from a column that is not the ignore column, is
      named by its header, and lists that column's cleaned cells, which are
      never empty. */
  lemma {:induction false} CategoriesFromColumns(table: seq<Column>, c: Category)
    requires c in CategoriesOf(table)
    ensures !IsIgnoreHeader(c.name) && c.merchants != []
    ensures exists column :: column in table && column.header == c.name && c.merchants == CleanCells(column.cells)
  {
    var init, column := table[..|table| - 1], table[|table| - 1];
    assert table == init + [column];
    if c in CategoriesOf(init) {
      CategoriesFromColumns(init, c);
      var col :| col in init && col.header == c.name && c.merchants == CleanCells(col.cells);
      assert col in table;
    } else {
      assert column in table;
    }
  }

  /** Every column other than the ignore column that has a kept cell becomes
      a category. */
  lemma {:induction false} ColumnsBecomeCategories(table: seq<Column>, column: Column)
    requires column in table && !IsIgnoreHeader(column.header) && CleanCells(column.cells) != []
    ensures Category(column.header, CleanCells(column.cells)) in CategoriesOf(table)
  {
    var init := table[..|table| - 1];
    assert table == init + [table[|table| - 1]];
    if column != table[|table| - 1] {
      ColumnsBecomeCategories(init, column);
    }
  }

  // ----- load_ignore_patterns

  /** The index of the first column whose header is "ignore" in any case. */
  function FirstIgnoreColumn(table: seq<Column>): (r: Option<nat>)
    ensures r.Some? ==> r.value < |table| && IsIgnoreHeader(table[r.value].header)
    ensures r.Some? ==> forall k :: 0 <= k < r.value ==> !IsIgnoreHeader(table[k].header)
    ensures r.None? ==> forall k :: 0 <= k < |table| ==> !IsIgnoreHeader(table[k].header)
  {
    if table == [] then None
    else if IsIgnoreHeader(table[0].header) then Some(0)
    else match FirstIgnoreColumn(table[1..])
      case None => None
      case Some(i) => Some(i + 1)
  }

  /** `load_ignore_patterns` on a read table: the cleaned cells of the first
      ignore column, and none when there is no such column. */
  method LoadIgnorePatterns(table: seq<Column>) returns (patterns: seq<string>)
    ensures FirstIgnoreColumn(table).None? ==> patterns == []
    ensures FirstIgnoreColumn(table).Some? ==> patterns == CleanCells(table[FirstIgnoreColumn(table).value].cells)
  {
    patterns := [];
    var ignoreColumn: Option<nat> := None;
    var i := 0;
    while i < |table|
      invariant 0 <= i <= |table|
      invariant forall k :: 0 <= k < i ==> !IsIgnoreHeader(table[k].header)
    {
      if IsIgnoreHeader(table[i].header) {
        ignoreColumn := Some(i);
        break;
      }
      i := i + 1;
    }
    if ignoreColumn.Some? {
      patterns := CleanCells(table[ignoreColumn.value].cells);
    }
  }

  /** The ignore column never becomes a category. */
  lemma IgnoreColumnIsNoCategory(table: seq<Column>, c: Category)
    requires c in CategoriesOf(table)
    ensures Lower(c.name) != "ignore"
  {
    CategoriesFromColumns(table, c);
  }

  // ----- the merchant map of validate_categories and get_merchant_to_category_map

  /** `(merchant.lower(), category.name)` for each merchant of one category, in order. */
  function MerchantPairs(merchants: seq<string>, name: string): (r: seq<(string, string)>)
    ensures |r| == |merchants|
    ensures forall i :: 0 <= i < |merchants| ==> r[i] == (Lower(merchants[i]), name)
  {
    seq(|merchants|, i requires 0 <= i < |merchants| => (Lower(merchants[i]), name))
  }

  /** The pairs the nested loops visit, in visiting order. */
  function Pairs(categories: seq<Category>): seq<(string, string)> {
    if categories == [] then []
    else
      var last := categories[|categories| - 1];
      Pairs(categories[..|categories| - 1]) + MerchantPairs(last.merchants, last.name)
  }

  /** A map filled in order, where a key already present keeps its value. */
  function FirstMap(pairs: seq<(string, string)>): map<string, string> {
    if pairs == [] then map[]
    else
      var m := FirstMap(pairs[..|pairs| - 1]);
      var p := pairs[|pairs| - 1];
      if p.0 in m then m else m[p.0 := p.1]
  }

  /** A map filled in order, where every pair overwrites its key. */
  function LastMap(pairs: seq<(string, string)>): map<string, string> {
    if pairs == [] then map[]
    else
      var p := pairs[|pairs| - 1];
      LastMap(pairs[..|pairs| - 1])[p.0 := p.1]
  }

  lemma MerchantPairsStep(merchants: seq<string>, j: nat, name: string)
    requires j < |merchants|
    ensures MerchantPairs(merchants[..j + 1], name) == MerchantPairs(merchants[..j], name) + [(Lower(merchants[j]), name)]
  {
  }

  lemma PairsStep(categories: seq<Category>, i: nat)
    requires i < |categories|
    ensures Pairs(categories[..i + 1]) == Pairs(categories[..i]) + MerchantPairs(categories[i].merchants, categories[i].name)
  {
    assert categories[..i + 1][..i] == categories[..i];
  }

  lemma AppendStep(visited: seq<(string, string)>, merchants: seq<string>, j: nat, name: string)
    requires j < |merchants|
    ensures visited + MerchantPairs(merchants[..j + 1], name)
         == (visited + MerchantPairs(merchants[..j], name)) + [(Lower(merchants[j]), name)]
  {
    MerchantPairsStep(merchants, j, name);
  }

  /** `validate_categories`: always passes; the map it builds (and only logs)
      keeps the first category seen for each lowercased merchant, and is
      returned here beside the verdict. */
  method ValidateCategories(categories: seq<Category>) returns (valid: bool, merchantMap: map<string, string>)
    ensures valid
    ensures merchantMap == FirstMap(Pairs(categories))
  {
    merchantMap := map[];
    for i := 0 to |categories|
      invariant merchantMap == FirstMap(Pairs(categories[..i]))
    {
      var category := categories[i];
      ghost var visited := Pairs(categories[..i]);
      assert visited + MerchantPairs(category.merchants[..0], category.name) == visited;
      for j := 0 to |category.merchants|
        invariant merchantMap == FirstMap(visited + MerchantPairs(category.merchants[..j], category.name))
      {
        var merchantLower := Lower(category.merchants[j]);
        AppendStep(visited, category.merchants, j, category.name);
        ghost var next := visited + MerchantPairs(category.merchants[..j + 1], category.name);
        assert next[..|next| - 1] == visited + MerchantPairs(category.merchants[..j], category.name);
        if merchantLower !in merchantMap {
          merchantMap := merchantMap[merchantLower := category.name];
        }
      }
      assert category.merchants[..|category.merchants|] == category.merchants;
      PairsStep(categories, i);
    }
    assert categories[..|categories|] == categories;
    valid := true;
  }

  /** `get_merchant_to_category_map`: every lowercased merchant mapped to a
      category name, later categories overwriting earlier ones. */
  method GetMerchantToCategoryMap(categories: seq<Category>) returns (merchantMap: map<string, string>)
    ensures merchantMap == LastMap(Pairs(categories))
  {
    merchantMap := map[];
    for i := 0 to |categories|
      invariant merchantMap == LastMap(Pairs(categories[..i]))
    {
      var category := categories[i];
      ghost var visited := Pairs(categories[..i]);
      assert visited + MerchantPairs(category.merchants[..0], category.name) == visited;
      for j := 0 to |category.merchants|
        invariant merchantMap == LastMap(visited + MerchantPairs(category.merchants[..j], category.name))
      {
        AppendStep(visited, category.merchants, j, category.name);
        ghost var next := visited + MerchantPairs(category.merchants[..j + 1], category.name);
        assert next[..|next| - 1] == visited + MerchantPairs(category.merchants[..j], category.name);
        merchantMap := merchantMap[Lower(category.merchants[j]) := category.name];
      }
      assert category.merchants[..|category.merchants|] == category.merchants;
      PairsStep(categories, i);
    }
    assert categories[..|categories|] == categories;
  }

  /** The visited pairs are exactly the lowercased merchants with their
      category's name. */
  lemma {:induction false} PairsMember(categories: seq<Category>, p: (string, string))
    ensures p in Pairs(categories)
        <==> exists c, m :: c in categories && m in c.merchants && p == (Lower(m), c.name)
  {
    if categories != [] {
      var init, last := categories[..|categories| - 1], categories[|categories| - 1];
      PairsMember(init, p);
      assert categories == init + [last];
      if p in MerchantPairs(last.merchants, last.name) {
        var i :| 0 <= i < |last.merchants| && MerchantPairs(last.merchants, last.name)[i] == p;
        assert last.merchants[i] in last.merchants;
      }
      if exists c, m :: c in categories && m in c.merchants && p == (Lower(m), c.name) {
        var c, m :| c in categories && m in c.merchants && p == (Lower(m), c.name);
        if c == last {
          var i :| 0 <= i < |last.merchants| && last.merchants[i] == m;
          assert MerchantPairs(last.merchants, last.name)[i] == p;
        } else {
          assert c in init;
        }
      }
    }
  }

  /** Both maps have exactly the visited merchants as keys. */
  lemma {:induction false} MapKeys(pairs: seq<(string, string)>)
    ensures FirstMap(pairs).Keys == set p | p in pairs :: p.0
    ensures LastMap(pairs).Keys == set p | p in pairs :: p.0
  {
    if pairs != [] {
      var init, last := pairs[..|pairs| - 1], pairs[|pairs| - 1];
      MapKeys(init);
      assert pairs == init + [last];
      assert (set p | p in pairs :: p.0) == (set p | p in init :: p.0) + {last.0};
    }
  }

  /** The first map holds, for each key, the value of the key's first pair. */
  lemma {:induction false} FirstMapKeepsFirst(pairs: seq<(string, string)>, i: nat)
    requires i < |pairs|
    requires forall j :: 0 <= j < i ==> pairs[j].0 != pairs[i].0
    ensures pairs[i].0 in FirstMap(pairs) && FirstMap(pairs)[pairs[i].0] == pairs[i].1
  {
    var init, last := pairs[..|pairs| - 1], pairs[|pairs| - 1];
    if i < |pairs| - 1 {
      FirstMapKeepsFirst(init, i);
    } else {
      MapKeys(init);
    }
  }

  /** The last map holds, for each key, the value of the key's last pair. */
  lemma {:induction false} LastMapKeepsLast(pairs: seq<(string, string)>, i: nat)
    requires i < |pairs|
    requires forall j :: i < j < |pairs| ==> pairs[j].0 != pairs[i].0
    ensures pairs[i].0 in LastMap(pairs) && LastMap(pairs)[pairs[i].0] == pairs[i].1
  {
    var init := pairs[..|pairs| - 1];
    if i < |pairs| - 1 {
      LastMapKeepsLast(init, i);
    }
  }

  /** Where a merchant belongs to one category only, validation's map and the
      lookup map agree on it. */
  lemma {:induction false} MapsAgreeOnUniqueMerchants(pairs: seq<(string, string)>, k: string, name: string)
    requires k in (set p | p in pairs :: p.0)
    requires forall p :: p in pairs && p.0 == k ==> p.1 == name
    ensures k in FirstMap(pairs) && FirstMap(pairs)[k] == name
    ensures k in LastMap(pairs) && LastMap(pairs)[k] == name
  {
    MapKeys(pairs);
    var init, last := pairs[..|pairs| - 1], pairs[|pairs| - 1];
    assert pairs == init + [last];
    if last.0 != k {
      MapsAgreeOnUniqueMerchants(init, k, name);
    } else if k in FirstMap(init) {
      MapKeys(init);
      MapsAgreeOnUniqueMerchants(init, k, name);
    }
  }
}
