/** budget_loader.py: budgets per category, read row by row from a two-column
    table. The read table, pandas' rendering of a number as text and
    Python's `float()` on text are inputs. */
module BudgetLoader {
  import opened Wrappers
  import opened Strings
  import opened Tables

  /** The cells of one row under the `Category` and `Budget` columns. */
  datatype BudgetRow = BudgetRow(category: Cell, budget: Cell)

  datatype BudgetFile = BudgetFile(headers: seq<string>, rows: seq<BudgetRow>)

  /** The required columns the file lacks, in the order they are required. */
  function MissingColumns(headers: seq<string>): (missing: seq<string>)
    ensures forall c :: c in missing <==> c in ["Category", "Budget"] && c !in headers
    ensures |missing| <= 2
  {
    (if "Category" in headers then [] else ["Category"])
    + (if "Budget" in headers then [] else ["Budget"])
  }

  /** `str(cell).strip()`: a blank cell renders as "nan". */
  function CategoryText(cell: Cell, render: real -> string): string {
    match cell
    case Blank => "nan"
    case Text(text) => Strip(text)
    case Number(value) => Strip(render(value))
  }

  /** `float(cell)`, None where Python raises. A blank cell is NaN, which
      passes `float()` but never `>= 0`, so it is None here too. */
  function BudgetValue(cell: Cell, parse: string -> Option<real>): Option<real> {
    match cell
    case Blank => None
    case Text(text) => parse(text)
    case Number(value) => Some(value)
  }

  /** What one row adds to the map, if anything. */
  function RowEntry(row: BudgetRow, parse: string -> Option<real>, render: real -> string): (e: Option<(string, real)>)
    ensures e.Some? <==> CategoryText(row.category, render) != "" && BudgetValue(row.budget, parse).Some?
                         && BudgetValue(row.budget, parse).value >= 0.0
    ensures e.Some? ==> e.value.0 == CategoryText(row.category, render)
    ensures e.Some? ==> e.value.0 != "" && e.value.1 >= 0.0
    ensures e.Some? ==> BudgetValue(row.budget, parse) == Some(e.value.1)
    ensures BudgetValue(row.budget, parse).None? ==> e.None?
  {
    var category := CategoryText(row.category, render);
    match BudgetValue(row.budget, parse)
    case None => None
    case Some(budget) => if category != "" && budget >= 0.0 then Some((category, budget)) else None
  }

  /** The rows applied in order to `budgets`, each entry overwriting its key. */
  function BudgetsFrom(budgets: map<string, real>, rows: seq<BudgetRow>,
                       parse: string -> Option<real>, render: real -> string): map<string, real>
  {
    if rows == [] then budgets
    else
      var m := BudgetsFrom(budgets, rows[..|rows| - 1], parse, render);
      match RowEntry(rows[|rows| - 1], parse, render)
      case None => m
      case Some(entry) => m[entry.0 := entry.1]
  }

  function BudgetsOf(rows: seq<BudgetRow>, parse: string -> Option<real>, render: real -> string): map<string, real> {
    BudgetsFrom(map[], rows, parse, render)
  }

  /** `load_budgets` on the read file: no budgets without a file path, an
      error naming the missing required columns, else the map of the rows. */
  method LoadBudgets(filepath: Option<string>, file: BudgetFile,
                     parse: string -> Option<real>, render: real -> string)
    returns (r: Result<map<string, real>, seq<string>>)
    ensures (filepath.None? || filepath.value == "") ==> r == Success(map[])
    ensures filepath.Some? && filepath.value != "" && MissingColumns(file.headers) != []
            ==> r == Failure(MissingColumns(file.headers))
    ensures filepath.Some? && filepath.value != "" && MissingColumns(file.headers) == []
            ==> r == Success(BudgetsOf(file.rows, parse, render))
  {
    if filepath.None? || filepath.value == "" {
      return Success(map[]);
    }
    var missing := MissingColumns(file.headers);
    if missing != [] {
      return Failure(missing);
    }
    var budgets: map<string, real> := map[];
    for i := 0 to |file.rows|
      invariant budgets == BudgetsOf(file.rows[..i], parse, render)
    {
      BudgetsOfStep(file.rows, i, parse, render);
      var row := file.rows[i];
      var category := CategoryText(row.category, render);
      var budget := BudgetValue(row.budget, parse);
      if budget.None? {
        continue;
      }
      if category != "" && budget.value >= 0.0 {
        budgets := budgets[category := budget.value];
      }
    }
    assert file.rows[..|file.rows|] == file.rows;
    return Success(budgets);
  }

  lemma BudgetsOfStep(rows: seq<BudgetRow>, i: nat, parse: string -> Option<real>, render: real -> string)
    requires i < |rows|
    ensures BudgetsOf(rows[..i + 1], parse, render)
         == match RowEntry(rows[i], parse, render)
            case None => BudgetsOf(rows[..i], parse, render)
            case Some(entry) => BudgetsOf(rows[..i], parse, render)[entry.0 := entry.1]
  {
    assert rows[..i + 1][..i] == rows[..i];
  }

  /** Applying two runs of rows is applying their concatenation. */
  lemma {:induction false} BudgetsFromAppend(budgets: map<string, real>, a: seq<BudgetRow>, b: seq<BudgetRow>,
                                             parse: string -> Option<real>, render: real -> string)
    ensures BudgetsFrom(budgets, a + b, parse, render)
         == BudgetsFrom(BudgetsFrom(budgets, a, parse, render), b, parse, render)
    decreases |b|
  {
    if b == [] {
      assert a + b == a;
    } else {
      BudgetsFromAppend(budgets, a, b[..|b| - 1], parse, render);
      assert (a + b)[..|a + b| - 1] == a + b[..|b| - 1];
    }
  }

  /** A row whose budget does not parse is skipped and the rows after it are
      still read: removing it changes nothing. */
  lemma SkippedRowHasNoEffect(before: seq<BudgetRow>, row: BudgetRow, after: seq<BudgetRow>,
                              parse: string -> Option<real>, render: real -> string)
    requires BudgetValue(row.budget, parse).None?
    ensures BudgetsOf(before + [row] + after, parse, render) == BudgetsOf(before + after, parse, render)
  {
    BudgetsFromAppend(map[], before + [row], after, parse, render);
    BudgetsFromAppend(map[], before, [row], parse, render);
    BudgetsFromAppend(map[], before, after, parse, render);
    assert ([row])[..0] == [];
  }

  /** Every loaded budget has a non-empty category and is not negative. */
  lemma {:induction false} LoadedBudgetsValid(budgets: map<string, real>, rows: seq<BudgetRow>,
                                              parse: string -> Option<real>, render: real -> string)
    requires forall c :: c in budgets ==> c != "" && budgets[c] >= 0.0
    ensures forall c :: c in BudgetsFrom(budgets, rows, parse, render)
              ==> c != "" && BudgetsFrom(budgets, rows, parse, render)[c] >= 0.0
  {
    if rows != [] {
      LoadedBudgetsValid(budgets, rows[..|rows| - 1], parse, render);
    }
  }

  /** A category has a budget exactly when some row's entry names it. */
  lemma {:induction false} BudgetedIffNamed(rows: seq<BudgetRow>, parse: string -> Option<real>, render: real -> string,
                                            category: string)
    ensures category in BudgetsOf(rows, parse, render)
        <==> exists i :: 0 <= i < |rows| && RowNames(rows[i], parse, render, category)
  {
    if rows != [] {
      var init, last := rows[..|rows| - 1], rows[|rows| - 1];
      BudgetedIffNamed(init, parse, render, category);
      if RowNames(last, parse, render, category) {
        assert category in BudgetsOf(rows, parse, render);
      } else {
        assert (category in BudgetsOf(rows, parse, render)) == (category in BudgetsOf(init, parse, render));
        assert forall i :: 0 <= i < |init| ==> init[i] == rows[i];
      }
    }
  }

  /** The budget of a category is that of the last row naming it: later rows
      overwrite earlier ones. */
  lemma {:induction false} LastRowWins(rows: seq<BudgetRow>, parse: string -> Option<real>, render: real -> string,
                                       i: nat)
    requires i < |rows| && RowEntry(rows[i], parse, render).Some?
    requires forall j :: i < j < |rows| ==> !RowNames(rows[j], parse, render, RowEntry(rows[i], parse, render).value.0)
    ensures RowEntry(rows[i], parse, render).value.0 in BudgetsOf(rows, parse, render)
    ensures BudgetsOf(rows, parse, render)[RowEntry(rows[i], parse, render).value.0]
         == RowEntry(rows[i], parse, render).value.1
  {
    var init, last := rows[..|rows| - 1], rows[|rows| - 1];
    var entry := RowEntry(rows[i], parse, render).value;
    var before := BudgetsOf(init, parse, render);
    if i < |init| {
      assert init[i] == rows[i];
      LastRowWins(init, parse, render, i);
      assert !RowNames(last, parse, render, entry.0);
      match RowEntry(last, parse, render)
      case None =>
        assert BudgetsOf(rows, parse, render) == before;
      case Some(other) =>
        assert BudgetsOf(rows, parse, render) == before[other.0 := other.1];
    } else {
      assert BudgetsOf(rows, parse, render) == before[entry.0 := entry.1];
    }
  }

  /** Whether a row's entry is for `category`. */
  predicate RowNames(row: BudgetRow, parse: string -> Option<real>, render: real -> string, category: string) {
    RowEntry(row, parse, render).Some? && RowEntry(row, parse, render).value.0 == category
  }

  // ----- get_budget_for_category

  /** `budgets.get(category)`. */
  function GetBudgetForCategory(budgets: map<string, real>, category: string): (r: Option<real>)
    ensures r.Some? <==> category in budgets
    ensures r.Some? ==> r.value == budgets[category]
  {
    if category in budgets then Some(budgets[category]) else None
  }

  /** A loaded budget that is found is never negative, and a category no row
      names has none (not a budget of 0). */
  lemma LoadedBudgetLookup(rows: seq<BudgetRow>, parse: string -> Option<real>, render: real -> string,
                           category: string)
    ensures GetBudgetForCategory(BudgetsOf(rows, parse, render), category).Some?
            ==> GetBudgetForCategory(BudgetsOf(rows, parse, render), category).value >= 0.0
    ensures (forall i :: 0 <= i < |rows| ==> !RowNames(rows[i], parse, render, category))
            ==> GetBudgetForCategory(BudgetsOf(rows, parse, render), category) == None
  {
    LoadedBudgetsValid(map[], rows, parse, render);
    BudgetedIffNamed(rows, parse, render, category);
  }

  // ----- validate_budgets

  function NegativeBudgets(budgets: map<string, real>): (r: map<string, real>)
    ensures forall c :: c in r <==> c in budgets && budgets[c] < 0.0
    ensures forall c :: c in r ==> r[c] == budgets[c]
  {
    map c | c in budgets && budgets[c] < 0.0 :: budgets[c]
  }

  /** `validate_budgets`: passes when there are no budgets, and otherwise
      exactly when none is negative. */
  function ValidateBudgets(budgets: map<string, real>): (valid: bool)
    ensures valid <==> forall c :: c in budgets ==> budgets[c] >= 0.0
  {
    if budgets == map[] then true
    else
      assert forall c :: c in budgets && budgets[c] < 0.0 ==> c in NegativeBudgets(budgets);
      NegativeBudgets(budgets) == map[]
  }

  /** Validation accepts every map `load_budgets` produces. */
  lemma LoadedBudgetsPassValidation(rows: seq<BudgetRow>, parse: string -> Option<real>, render: real -> string)
    ensures ValidateBudgets(BudgetsOf(rows, parse, render))
  {
    LoadedBudgetsValid(map[], rows, parse, render);
  }

  // ----- get_total_budget

  /** `sum(budgets.values())`, over the reals. */
  ghost function GetTotalBudget(budgets: map<string, real>): real
    decreases |budgets.Keys|
  {
    if budgets == map[] then 0.0
    else
      var c :| c in budgets;
      assert |(budgets - {c}).Keys| < |budgets.Keys| by {
        assert (budgets - {c}).Keys == budgets.Keys - {c};
      }
      budgets[c] + GetTotalBudget(budgets - {c})
  }

  /** The total is any one budget plus the total of the others. */
  lemma {:induction false} TotalBudgetRemove(budgets: map<string, real>, category: string)
    requires category in budgets
    ensures GetTotalBudget(budgets) == budgets[category] + GetTotalBudget(budgets - {category})
    decreases |budgets.Keys|
  {
    var c :| c in budgets && GetTotalBudget(budgets) == budgets[c] + GetTotalBudget(budgets - {c});
    if c != category {
      assert (budgets - {c}).Keys == budgets.Keys - {c};
      assert (budgets - {category}).Keys == budgets.Keys - {category};
      TotalBudgetRemove(budgets - {c}, category);
      TotalBudgetRemove(budgets - {category}, c);
      assert budgets - {c} - {category} == budgets - {category} - {c};
    }
  }

  /** With no negative budget the total is at least every single budget. */
  lemma {:induction false} TotalBudgetBounds(budgets: map<string, real>)
    requires forall c :: c in budgets ==> budgets[c] >= 0.0
    ensures GetTotalBudget(budgets) >= 0.0
    ensures forall c :: c in budgets ==> GetTotalBudget(budgets) >= budgets[c]
    decreases |budgets.Keys|
  {
    if budgets != map[] {
      forall c | c in budgets
        ensures GetTotalBudget(budgets) >= budgets[c]
      {
        assert (budgets - {c}).Keys == budgets.Keys - {c};
        TotalBudgetRemove(budgets, c);
        TotalBudgetBounds(budgets - {c});
      }
    }
  }

  /** Setting one category's budget changes the total by the difference. */
  lemma TotalBudgetUpdate(budgets: map<string, real>, category: string, budget: real)
    ensures GetTotalBudget(budgets[category := budget])
         == GetTotalBudget(budgets - {category}) + budget
  {
    TotalBudgetRemove(budgets[category := budget], category);
    assert budgets[category := budget] - {category} == budgets - {category};
  }
}
