/** csv_loader.py: finding the date, amount and description columns of a
    bank export, gathering the files of a directory, checking the combined
    frame and turning its rows into transactions. Reading files and listing
    directories are outside the model: a file is its name and its read table. */
module CsvLoader {
  import opened Wrappers
  import opened Strings
  import opened Tables
  import opened Models

  const Required: seq<string> := ["date", "amount", "description"]

  /** The key a header stands for, if any, judged on the header lowercased
      and stripped; "date" is tested first, then "amount", then the two
      spellings of description. */
  function Classify(header: string): (key: Option<string>)
    ensures key.Some? ==> key.value in Required
  {
    var name := Strip(Lower(header));
    if Contains(name, "date") then Some("date")
    else if Contains(name, "amount") then Some("amount")
    else if Contains(name, "description") || Contains(name, "desc") then Some("description")
    else None
  }

  /** A header stands for "date" exactly when it mentions "date", and for
      "amount" exactly when it mentions "amount" but not "date"; for
      "description" when it mentions "desc" and neither of the others. */
  lemma ClassifyPrecedence(header: string)
    ensures Classify(header) == Some("date") <==> Contains(Strip(Lower(header)), "date")
    ensures Classify(header) == Some("amount")
        <==> !Contains(Strip(Lower(header)), "date") && Contains(Strip(Lower(header)), "amount")
    ensures Classify(header) == Some("description")
        <==> !Contains(Strip(Lower(header)), "date") && !Contains(Strip(Lower(header)), "amount")
             && Contains(Strip(Lower(header)), "desc")
  {
    var name := Strip(Lower(header));
    if Contains(name, "description") {
      ContainsPrefix(name, "description", "desc");
    }
  }

  /** The key of each header, in header order. */
  function HeaderKeys(headers: seq<string>): (keys: seq<Option<string>>)
    ensures |keys| == |headers|
  {
    if headers == [] then [] else [Classify(headers[0])] + HeaderKeys(headers[1..])
  }

  lemma {:induction false} HeaderKeysAt(headers: seq<string>, i: nat)
    requires i < |headers|
    ensures HeaderKeys(headers)[i] == Classify(headers[i])
  {
    if i > 0 {
      HeaderKeysAt(headers[1..], i - 1);
    }
  }

  /** Each key to the position of the last header that stands for it. */
  function MappingOf(keys: seq<Option<string>>): map<string, nat> {
    if keys == [] then map[]
    else
      var m := MappingOf(keys[..|keys| - 1]);
      match keys[|keys| - 1]
      case None => m
      case Some(key) => m[key := |keys| - 1]
  }

  /** The mapping the header loop of `load_file` builds. */
  function ColumnMapping(headers: seq<string>): map<string, nat> {
    MappingOf(HeaderKeys(headers))
  }

  /** The loop over the headers in `load_file`. */
  method BuildColumnMapping(headers: seq<string>) returns (mapping: map<string, nat>)
    ensures mapping == ColumnMapping(headers)
  {
    mapping := map[];
    ghost var keys := HeaderKeys(headers);
    for i := 0 to |headers|
      invariant mapping == MappingOf(keys[..i])
    {
      assert keys[..i + 1][..i] == keys[..i];
      HeaderKeysAt(headers, i);
      var key := Classify(headers[i]);
      if key.Some? {
        mapping := mapping[key.value := i];
      }
    }
    assert keys[..|headers|] == keys;
  }

  /** A key is mapped exactly when some header stands for it, and then to the
      last such header. */
  lemma {:induction false} MappingLastWins(keys: seq<Option<string>>, key: string)
    ensures key in MappingOf(keys) <==> Some(key) in keys
    ensures key in MappingOf(keys) ==>
              MappingOf(keys)[key] < |keys|
              && keys[MappingOf(keys)[key]] == Some(key)
              && Some(key) !in keys[MappingOf(keys)[key] + 1..]
  {
    if keys != [] {
      var init, last := keys[..|keys| - 1], keys[|keys| - 1];
      MappingLastWins(init, key);
      assert keys == init + [last];
      if key in MappingOf(init) && last != Some(key) {
        var j := MappingOf(init)[key];
        assert keys[j + 1..] == init[j + 1..] + [last];
      }
    }
  }

  /** The header loop maps a key exactly when some header stands for it, to
      the last header that does. */
  lemma ColumnMappingLastWins(headers: seq<string>, key: string)
    ensures key in ColumnMapping(headers) <==> exists j :: 0 <= j < |headers| && Classify(headers[j]) == Some(key)
    ensures key in ColumnMapping(headers) ==>
              ColumnMapping(headers)[key] < |headers|
              && Classify(headers[ColumnMapping(headers)[key]]) == Some(key)
              && (forall j :: ColumnMapping(headers)[key] < j < |headers| ==> Classify(headers[j]) != Some(key))
  {
    var keys := HeaderKeys(headers);
    MappingLastWins(keys, key);
    if Some(key) in keys {
      var j :| 0 <= j < |keys| && keys[j] == Some(key);
      HeaderKeysAt(headers, j);
    }
    if exists j :: 0 <= j < |headers| && Classify(headers[j]) == Some(key) {
      var j :| 0 <= j < |headers| && Classify(headers[j]) == Some(key);
      HeaderKeysAt(headers, j);
      assert keys[j] in keys;
    }
    if key in ColumnMapping(headers) {
      var m := ColumnMapping(headers)[key];
      HeaderKeysAt(headers, m);
      forall j | m < j < |headers|
        ensures Classify(headers[j]) != Some(key)
      {
        HeaderKeysAt(headers, j);
        assert keys[j] == keys[m + 1..][j - m - 1];
      }
    }
  }

  /** Different keys never share a column: each header maps to one key at most. */
  lemma ColumnMappingInjective(headers: seq<string>, k1: string, k2: string)
    requires k1 in ColumnMapping(headers) && k2 in ColumnMapping(headers) && k1 != k2
    ensures ColumnMapping(headers)[k1] != ColumnMapping(headers)[k2]
  {
    MappingLastWins(HeaderKeys(headers), k1);
    MappingLastWins(HeaderKeys(headers), k2);
  }

  /** The required keys the mapping lacks, in the order they are required. */
  function MissingKeys(mapping: map<string, nat>): (missing: seq<string>)
    ensures forall k :: k in missing <==> k in Required && k !in mapping
  {
    (if "date" in mapping then [] else ["date"])
    + (if "amount" in mapping then [] else ["amount"])
    + (if "description" in mapping then [] else ["description"])
  }

  /** The three mapped columns of one row, in the order date, amount, description. */
  function Extract(row: seq<Cell>, mapping: map<string, nat>): (r: seq<Cell>)
    requires MissingKeys(mapping) == []
    ensures |r| == 3
    ensures r[0] == CellAt(row, mapping["date"]) && r[1] == CellAt(row, mapping["amount"])
    ensures r[2] == CellAt(row, mapping["description"])
  {
    [CellAt(row, mapping["date"]), CellAt(row, mapping["amount"]), CellAt(row, mapping["description"])]
  }

  /** What `load_file` returns for a read table: the frame of the three
      required columns, renamed and in every row, or the missing keys. */
  function ExtractRequired(table: Table): (r: Result<Table, seq<string>>)
    ensures r.Failure? <==> exists k :: k in Required && k !in ColumnMapping(table.headers)
    ensures r.Failure? ==> r.error == MissingKeys(ColumnMapping(table.headers)) && r.error != []
    ensures r.Success? ==> r.value.headers == Required && |r.value.rows| == |table.rows|
    ensures r.Success? ==> forall i :: 0 <= i < |table.rows| ==> r.value.rows[i] == Extract(table.rows[i], ColumnMapping(table.headers))
  {
    var mapping := ColumnMapping(table.headers);
    var missing := MissingKeys(mapping);
    if missing != [] then
      assert missing[0] in missing;
      Failure(missing)
    else
      Success(Table(Required, seq(|table.rows|, i requires 0 <= i < |table.rows| => Extract(table.rows[i], mapping))))
  }

  /** `load_file` on a read table. */
  method LoadFile(table: Table) returns (r: Result<Table, seq<string>>)
    ensures r == ExtractRequired(table)
  {
    var mapping := BuildColumnMapping(table.headers);
    var missing := MissingKeys(mapping);
    assert ExtractRequired(table).Failure? <==> missing != [];
    if missing != [] {
      return Failure(missing);
    }
    var rows: seq<seq<Cell>> := [];
    for i := 0 to |table.rows|
      invariant |rows| == i
      invariant forall k :: 0 <= k < i ==> rows[k] == Extract(table.rows[k], mapping)
    {
      rows := rows + [Extract(table.rows[i], mapping)];
    }
    assert rows == seq(|table.rows|, i requires 0 <= i < |table.rows| => Extract(table.rows[i], mapping));
    return Success(Table(Required, rows));
  }

  // ----- load_directory

  datatype CsvFile = CsvFile(name: string, table: Table)

  /** Category and budget files sit beside the exports and are not transactions. */
  predicate IsTransactionFile(name: string) {
    !Contains(Lower(name), "category") && !Contains(Lower(name), "budget")
  }

  function TransactionFiles(files: seq<CsvFile>): (r: seq<CsvFile>)
    ensures |r| <= |files|
    ensures forall f :: f in r <==> f in files && IsTransactionFile(f.name)
  {
    if files == [] then []
    else (if IsTransactionFile(files[0].name) then [files[0]] else []) + TransactionFiles(files[1..])
  }

  /** The frames of the files that `load` accepts, in file order. */
  function Loaded<E>(files: seq<CsvFile>, load: Table -> Result<Table, E>): seq<Table> {
    if files == [] then []
    else
      var frames := Loaded(files[..|files| - 1], load);
      match load(files[|files| - 1].table)
      case Failure(_) => frames
      case Success(frame) => frames + [frame]
  }

  /** The frames of the files that load, in file order. */
  function LoadedFrames(files: seq<CsvFile>): seq<Table> {
    Loaded(files, ExtractRequired)
  }

  /** `pd.concat(dfs, ignore_index=True)` of frames with the required headers. */
  function ConcatRows(frames: seq<Table>): seq<seq<Cell>> {
    if frames == [] then [] else ConcatRows(frames[..|frames| - 1]) + frames[|frames| - 1].rows
  }

  /** The combined frame holds exactly the rows of the frames it combines. */
  lemma {:induction false} ConcatRowsMember(frames: seq<Table>, row: seq<Cell>)
    ensures row in ConcatRows(frames) <==> exists f :: f in frames && row in f.rows
  {
    if frames != [] {
      var init, last := frames[..|frames| - 1], frames[|frames| - 1];
      ConcatRowsMember(init, row);
      assert frames == init + [last];
      if row in last.rows {
        assert last in frames;
      }
    }
  }

  /** The combined frame has as many rows as its frames together. */
  lemma {:induction false} ConcatRowsAppend(a: seq<Table>, b: seq<Table>)
    ensures ConcatRows(a + b) == ConcatRows(a) + ConcatRows(b)
  {
    if b != [] {
      var init, last := b[..|b| - 1], b[|b| - 1];
      ConcatRowsAppend(a, init);
      assert a + b == (a + init) + [last];
      assert (a + b)[..|a + b| - 1] == a + init;
    } else {
      assert a + b == a;
    }
  }

  /** `load_directory` on the files the glob found: the transaction files that
      load, combined; an error when no transaction file is left or none loads. */
  method LoadDirectory(files: seq<CsvFile>) returns (r: Result<Table, string>)
    ensures TransactionFiles(files) == [] ==> r == Failure("No CSV files found")
    ensures TransactionFiles(files) != [] && LoadedFrames(TransactionFiles(files)) == []
            ==> r == Failure("No valid CSV files could be loaded")
    ensures LoadedFrames(TransactionFiles(files)) != []
            ==> r == Success(Table(Required, ConcatRows(LoadedFrames(TransactionFiles(files)))))
  {
    var csvFiles := TransactionFiles(files);
    if csvFiles == [] {
      assert LoadedFrames(csvFiles) == [];
      return Failure("No CSV files found");
    }
    var dfs: seq<Table> := [];
    for i := 0 to |csvFiles|
      invariant dfs == LoadedFrames(csvFiles[..i])
    {
      assert csvFiles[..i + 1][..i] == csvFiles[..i];
      var df := LoadFile(csvFiles[i].table);
      if df.Success? {
        dfs := dfs + [df.value];
      }
    }
    assert csvFiles[..|csvFiles|] == csvFiles;
    if dfs == [] {
      return Failure("No valid CSV files could be loaded");
    }
    return Success(Table(Required, ConcatRows(dfs)));
  }

  lemma {:induction false} LoadedFromFiles<E>(files: seq<CsvFile>, load: Table -> Result<Table, E>, frame: Table)
    ensures frame in Loaded(files, load) <==> exists f :: f in files && load(f.table) == Success(frame)
  {
    if files != [] {
      var init, last := files[..|files| - 1], files[|files| - 1];
      LoadedFromFiles(init, load, frame);
      assert files == init + [last];
    }
  }

  /** Every loaded frame comes from a file of the list, and every file of the
      list that loads contributes its frame. */
  lemma LoadedFramesFromFiles(files: seq<CsvFile>, frame: Table)
    ensures frame in LoadedFrames(files) <==> exists f :: f in files && ExtractRequired(f.table) == Success(frame)
  {
    LoadedFromFiles(files, ExtractRequired, frame);
  }

  /** Category and budget files never contribute to the combined frame. */
  lemma ExcludedFilesIgnored(files: seq<CsvFile>, f: CsvFile)
    requires f in files && !IsTransactionFile(f.name)
    ensures f !in TransactionFiles(files)
  {
  }

  // ----- validate_data

  /** `pd.to_numeric(errors='coerce')` on one cell: text that does not parse
      becomes blank. */
  function ToNumeric(cell: Cell, parse: string -> Option<real>): (r: Cell)
    ensures !r.Text?
    ensures cell.Number? ==> r == cell
    ensures cell.Blank? ==> r == Blank
    ensures cell.Text? && parse(cell.text).Some? ==> r == Cell.Number(parse(cell.text).value)
    ensures cell.Text? && parse(cell.text).None? ==> r == Blank
  {
    match cell
    case Blank => Blank
    case Number(v) => Cell.Number(v)
    case Text(s) => if parse(s).Some? then Cell.Number(parse(s).value) else Blank
  }

  function CoerceColumn(rows: seq<seq<Cell>>, column: nat, parse: string -> Option<real>): (r: seq<seq<Cell>>)
    ensures |r| == |rows|
    ensures forall i :: 0 <= i < |rows| ==> |r[i]| == |rows[i]|
    ensures forall i, j :: 0 <= i < |rows| && 0 <= j < |rows[i]| && j != column ==> r[i][j] == rows[i][j]
    ensures forall i :: 0 <= i < |rows| && column < |rows[i]| ==> r[i][column] == ToNumeric(rows[i][column], parse)
  {
    seq(|rows|, i requires 0 <= i < |rows| =>
      if column < |rows[i]| then rows[i][column := ToNumeric(rows[i][column], parse)] else rows[i])
  }

  predicate DescriptionsAllBlank(rows: seq<seq<Cell>>, column: nat) {
    forall i :: 0 <= i < |rows| ==> CellAt(rows[i], column) == Blank
  }

  /** `validate_data`: fails on the missing required columns, and when no row
      has a description (also when there are no rows); on success, the frame
      with its amount column coerced to numbers, which the caller's frame
      becomes. */
  function ValidateData(table: Table, parse: string -> Option<real>): (r: Result<Table, string>)
    ensures r.Success? <==> (forall k :: k in Required ==> k in table.headers)
                            && !DescriptionsAllBlank(table.rows, IndexOf(table.headers, "description").value)
    ensures r.Success? ==> r.value.headers == table.headers && |r.value.rows| == |table.rows|
    ensures r.Success? ==> r.value.rows == CoerceColumn(table.rows, IndexOf(table.headers, "amount").value, parse)
    ensures r.Success? ==> (forall i :: (0 <= i < |table.rows|
              ==> !CellAt(r.value.rows[i], IndexOf(table.headers, "amount").value).Text?))
  {
    if "date" !in table.headers || "amount" !in table.headers || "description" !in table.headers then
      Failure("Missing required columns")
    else
      var amount := IndexOf(table.headers, "amount").value;
      var rows := CoerceColumn(table.rows, amount, parse);
      var description := IndexOf(table.headers, "description").value;
      if DescriptionsAllBlank(rows, description) then
        Failure("Description column cannot be empty")
      else
        Success(Table(table.headers, rows))
  }

  /** A frame that `load_file` returns has every required column. */
  lemma ExtractedFrameHasColumns(table: Table)
    requires ExtractRequired(table).Success?
    ensures forall k :: k in Required ==> k in ExtractRequired(table).value.headers
  {
  }

  // ----- to_transactions

  /** Positions of the three columns a frame's rows are read from. */
  datatype Columns = Columns(date: nat, amount: nat, description: nat)

  function FrameColumns(headers: seq<string>): (c: Option<Columns>)
    ensures c.None? <==> exists k :: k in Required && k !in headers
    ensures c.Some? ==> c.value.date < |headers| && c.value.amount < |headers| && c.value.description < |headers|
    ensures c.Some? ==> c.value.amount == IndexOf(headers, "amount").value
    ensures c.Some? ==> c.value == Columns(IndexOf(headers, "date").value, IndexOf(headers, "amount").value, IndexOf(headers, "description").value)
  {
    var d, a, e := IndexOf(headers, "date"), IndexOf(headers, "amount"), IndexOf(headers, "description");
    if d.Some? && a.Some? && e.Some? then Some(Columns(d.value, a.value, e.value)) else None
  }

  /** `str(cell)` for a present cell, "" for a blank one. */
  function TextOf(cell: Cell, render: real -> string): string {
    match cell
    case Blank => ""
    case Text(s) => s
    case Number(v) => render(v)
  }

  /** `float(cell)` for a present cell, 0 for a blank one; None where
      `float()` raises. */
  function AmountOf(cell: Cell, parse: string -> Option<real>): Option<real> {
    match cell
    case Blank => Some(0.0)
    case Text(s) => parse(s)
    case Number(v) => Some(v)
  }

  function RowTransaction(row: seq<Cell>, c: Columns, parse: string -> Option<real>, render: real -> string): Transaction
    requires AmountOf(CellAt(row, c.amount), parse).Some?
  {
    NewTransaction(TextOf(CellAt(row, c.date), render), AmountOf(CellAt(row, c.amount), parse).value,
                   TextOf(CellAt(row, c.description), render))
  }

  predicate AmountsConvert(rows: seq<seq<Cell>>, c: Columns, parse: string -> Option<real>) {
    forall i :: 0 <= i < |rows| ==> AmountOf(CellAt(rows[i], c.amount), parse).Some?
  }

  /** What `to_transactions` returns: one new transaction per row, in row
      order, or the error a missing column or an amount `float()` rejects
      raises; a frame without rows never looks its columns up. */
  function TransactionsOf(table: Table, parse: string -> Option<real>, render: real -> string)
    : (r: Result<seq<Transaction>, string>)
    ensures table.rows == [] ==> r == Success([])
    ensures r.Failure? <==> table.rows != [] && (FrameColumns(table.headers).None?
                              || !AmountsConvert(table.rows, FrameColumns(table.headers).value, parse))
    ensures r.Success? ==> |r.value| == |table.rows|
    ensures r.Success? && table.rows != [] ==> (FrameColumns(table.headers).Some?
              && forall i :: 0 <= i < |table.rows|
                   ==> r.value[i] == RowTransaction(table.rows[i], FrameColumns(table.headers).value, parse, render))
    ensures r.Success? ==> forall i :: 0 <= i < |table.rows| ==> r.value[i].category == Uncategorized && r.value[i].id == None
  {
    if table.rows == [] then Success([])
    else match FrameColumns(table.headers)
      case None => Failure("KeyError")
      case Some(c) =>
        if AmountsConvert(table.rows, c, parse) then
          Success(seq(|table.rows|, i requires 0 <= i < |table.rows| => RowTransaction(table.rows[i], c, parse, render)))
        else Failure("ValueError")
  }

  lemma ConvertStep(rows: seq<seq<Cell>>, i: nat, c: Columns, parse: string -> Option<real>)
    requires i < |rows| && AmountsConvert(rows[..i], c, parse)
    requires AmountOf(CellAt(rows[i], c.amount), parse).Some?
    ensures AmountsConvert(rows[..i + 1], c, parse)
  {
    assert forall k :: 0 <= k < i ==> rows[..i + 1][k] == rows[..i][k];
  }

  lemma ConvertedRows(table: Table, c: Columns, ts: seq<Transaction>, parse: string -> Option<real>, render: real -> string)
    requires table.rows != [] && FrameColumns(table.headers) == Some(c)
    requires AmountsConvert(table.rows[..|table.rows|], c, parse) && |ts| == |table.rows|
    requires forall k :: 0 <= k < |ts| ==> ts[k] == RowTransaction(table.rows[k], c, parse, render)
    ensures TransactionsOf(table, parse, render) == Success(ts)
  {
    assert table.rows[..|table.rows|] == table.rows;
    var conv := seq(|table.rows|, i requires 0 <= i < |table.rows| => RowTransaction(table.rows[i], c, parse, render));
    assert conv == ts;
  }

  /** `to_transactions`: the loop over the rows. */
  method ToTransactions(table: Table, parse: string -> Option<real>, render: real -> string)
    returns (r: Result<seq<Transaction>, string>)
    ensures r == TransactionsOf(table, parse, render)
  {
    var transactions: seq<Transaction> := [];
    var columns := FrameColumns(table.headers);
    for i := 0 to |table.rows|
      invariant i > 0 ==> columns.Some?
      invariant columns.Some? ==> AmountsConvert(table.rows[..i], columns.value, parse)
      invariant |transactions| == i
      invariant columns.Some? ==> forall k :: 0 <= k < i ==> transactions[k] == RowTransaction(table.rows[k], columns.value, parse, render)
    {
      var row := table.rows[i];
      if columns.None? {
        return Failure("KeyError");
      }
      var c := columns.value;
      var amount := AmountOf(CellAt(row, c.amount), parse);
      if amount.None? {
        assert !AmountsConvert(table.rows, c, parse);
        return Failure("ValueError");
      }
      ConvertStep(table.rows, i, c, parse);
      transactions := transactions + [RowTransaction(row, c, parse, render)];
    }
    if table.rows == [] {
      return Success([]);
    }
    ConvertedRows(table, columns.value, transactions, parse, render);
    return Success(transactions);
  }

  /** A row's missing date or description becomes "", a missing amount 0, and
      present cells carry over (numbers through `str()`). */
  lemma RowDefaults(row: seq<Cell>, c: Columns, parse: string -> Option<real>, render: real -> string)
    requires AmountOf(CellAt(row, c.amount), parse).Some?
    ensures CellAt(row, c.date) == Blank ==> RowTransaction(row, c, parse, render).date == ""
    ensures CellAt(row, c.description) == Blank ==> RowTransaction(row, c, parse, render).description == ""
    ensures CellAt(row, c.amount) == Blank ==> RowTransaction(row, c, parse, render).amount == 0.0
    ensures CellAt(row, c.amount).Number? ==> RowTransaction(row, c, parse, render).amount == CellAt(row, c.amount).value
    ensures CellAt(row, c.date).Text? ==> RowTransaction(row, c, parse, render).date == CellAt(row, c.date).text
    ensures CellAt(row, c.description).Text?
            ==> RowTransaction(row, c, parse, render).description == CellAt(row, c.description).text
  {
  }

  /** A frame that passed `validate_data` always converts: its columns exist
      and its amounts are all numbers or blank, whatever `float()` makes of
      text. */
  lemma ValidatedFrameConverts(table: Table, coerce: string -> Option<real>,
                               parse: string -> Option<real>, render: real -> string)
    requires ValidateData(table, coerce).Success?
    ensures TransactionsOf(ValidateData(table, coerce).value, parse, render).Success?
  {
    var v := ValidateData(table, coerce).value;
    if v.rows != [] {
      var c := FrameColumns(v.headers).value;
      assert c.amount == IndexOf(table.headers, "amount").value;
      forall i | 0 <= i < |v.rows|
        ensures AmountOf(CellAt(v.rows[i], c.amount), parse).Some?
      {
        assert !CellAt(v.rows[i], c.amount).Text?;
      }
    }
  }
}
