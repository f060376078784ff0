/** Building the difference table: one pass that collects cells, one that prunes sources and cells. */
module PriceTableBuilder {
  import opened Options
  import opened PriceTable
  import opened PriceTableTheorems

  ghost predicate Mentioned(data: Data, model: string) {
    exists i :: 0 <= i < |FIELDS| && Lookup(data, FIELDS[i], model).Some?
  }

  method ModelsOf(data: Data) returns (models: set<string>)
    ensures forall model :: model in models <==> Mentioned(data, model)
  {
    models := {};
    for i := 0 to |FIELDS|
      invariant forall model :: model in models <==> exists k :: 0 <= k < i && Lookup(data, FIELDS[k], model).Some?
    {
      if FIELDS[i] in data {
        models := models + data[FIELDS[i]].Keys;
      }
    }
  }

  method AllModels(input: Input) returns (models: set<string>)
    ensures forall model :: model in models <==>
      Mentioned(input.local, model) || exists i :: 0 <= i < |input.sources| && Mentioned(input.sources[i].data, model)
  {
    models := ModelsOf(input.local);
    for i := 0 to |input.sources|
      invariant forall model :: model in models <==>
        Mentioned(input.local, model) || exists k :: 0 <= k < i && Mentioned(input.sources[k].data, model)
    {
      var more := ModelsOf(input.sources[i].data);
      models := models + more;
    }
  }

  ghost predicate AnyFound(input: Input, field: string, model: string, n: nat)
    requires n <= |input.sources|
  {
    exists i :: 0 <= i < n && Lookup(input.sources[i].data, field, model).Some?
  }

  ghost predicate AnyDisagrees(input: Input, field: string, model: string, n: nat)
    requires n <= |input.sources|
  {
    exists i :: 0 <= i < n && Disagrees(Current(input.local, field, model), Lookup(input.sources[i].data, field, model))
  }

  /** One cell of the first pass: what every source shows, and whether the cell is kept. */
  method BuildItem(input: Input, field: string, model: string) returns (shouldInclude: bool, item: Item)
    ensures shouldInclude <==> Included(input, field, model, |input.sources|)
    ensures item == FirstItem(input, field, model)
  {
    var localValue := Current(input.local, field, model);
    var upstreamValues: map<string, Value>, confidenceValues: map<string, bool> := map[], map[];
    var hasUpstreamValue, hasDifference := false, false;
    for i := 0 to |input.sources|
      invariant upstreamValues == Upstreams(input, field, model, i)
      invariant confidenceValues == Confidence(input, model, i)
      invariant hasUpstreamValue <==> AnyFound(input, field, model, i)
      invariant hasDifference <==> AnyDisagrees(input, field, model, i)
    {
      var source := input.sources[i];
      var found := Lookup(source.data, field, model);
      var upstreamValue := Null;
      if found.Some? {
        upstreamValue := found.value;
        hasUpstreamValue := true;
        if localValue != Null && !ValuesEqual(localValue, upstreamValue) {
          hasDifference := true;
        } else if ValuesEqual(localValue, upstreamValue) {
          upstreamValue := SAME;
        }
      }
      if upstreamValue == Null && localValue == Null {
        upstreamValue := SAME;
      }
      if localValue == Null && upstreamValue != Null && upstreamValue != SAME {
        hasDifference := true;
      }
      assert upstreamValue == ShownBy(input, i, field, model);
      upstreamValues := upstreamValues[source.name := upstreamValue];
      confidenceValues := confidenceValues[source.name := Trusted(source.data, model)];
    }
    shouldInclude := if localValue != Null then hasDifference else hasUpstreamValue;
    item := Item(localValue, upstreamValues, confidenceValues);
  }

  ghost function FirstCell(input: Input, field: string, model: string): Option<Item> {
    if InFirstPass(input, field, model) then Some(FirstItem(input, field, model)) else None
  }

  /** The row of a model holds exactly its first-pass cells. */
  ghost predicate IsRow(input: Input, model: string, row: map<string, Item>) {
    && (forall field :: field in row <==> FirstCell(input, field, model).Some?)
    && (forall field :: field in row ==> FirstCell(input, field, model) == Some(row[field]))
  }

  method BuildRow(input: Input, model: string) returns (row: map<string, Item>)
    ensures IsRow(input, model, row)
  {
    row := map[];
    for i := 0 to |FIELDS|
      invariant forall field :: field in row <==> field in FIELDS[..i] && FirstCell(input, field, model).Some?
      invariant forall field :: field in row ==> FirstCell(input, field, model) == Some(row[field])
    {
      var shouldInclude, item := BuildItem(input, FIELDS[i], model);
      assert FIELDS[..i + 1] == FIELDS[..i] + [FIELDS[i]];
      assert FIELDS[i] in FIELDS;
      if shouldInclude {
        row := row[FIELDS[i] := item];
      }
    }
    assert FIELDS[..|FIELDS|] == FIELDS;
  }

  lemma IncludedIsMentioned(input: Input, field: string, model: string)
    requires InFirstPass(input, field, model)
    ensures exists i :: 0 <= i < |input.sources| && Mentioned(input.sources[i].data, model)
  {
    var current := Current(input.local, field, model);
    var i :| 0 <= i < |input.sources| &&
      var found := Lookup(input.sources[i].data, field, model);
      if current == Null then found.Some? else Disagrees(current, found);
    var k :| 0 <= k < |FIELDS| && FIELDS[k] == field;
    assert Lookup(input.sources[i].data, FIELDS[k], model).Some?;
    assert Mentioned(input.sources[i].data, model);
  }

  /** Each of these models has the row it should have, or none when that is empty. */
  ghost predicate AreRows(input: Input, models: set<string>, table: Table) {
    && (forall model :: model in table ==> model in models && table[model] != map[])
    && (forall model :: model in models ==> IsRow(input, model, if model in table then table[model] else map[]))
  }

  lemma RowsMakeFirstPass(input: Input, models: set<string>, table: Table)
    requires AreRows(input, models, table)
    requires forall field, model :: FirstCell(input, field, model).Some? ==> model in models
    ensures IsFirstPass(input, table)
  {
    var cells: Cells := (field, model) => FirstCell(input, field, model);
    forall field, model
      ensures model in table && field in table[model] <==> cells(field, model).Some?
      ensures model in table && field in table[model] ==> cells(field, model) == Some(table[model][field])
    {
      if model in models {
        assert IsRow(input, model, if model in table then table[model] else map[]);
      }
    }
  }

  method FirstPass(input: Input) returns (table: Table)
    ensures IsFirstPass(input, table)
  {
    table := map[];
    var models := AllModels(input);
    var todo := models;
    while todo != {}
      invariant todo <= models
      invariant AreRows(input, models - todo, table)
    {
      var model :| model in todo;
      var row := BuildRow(input, model);
      if row != map[] {
        table := table[model := row];
      }
      todo := todo - {model};
    }
    forall field, model | FirstCell(input, field, model).Some? ensures model in models {
      IncludedIsMentioned(input, field, model);
    }
    RowsMakeFirstPass(input, models, table);
  }

  predicate ShowsUnder(item: Item, name: string) {
    name in item.upstreams && IsShownValue(item.upstreams[name])
  }

  ghost predicate ShowsSomewhere(table: Table, name: string) {
    exists model, field :: model in table && field in table[model] && ShowsUnder(table[model][field], name)
  }

  method NamesInRow(row: map<string, Item>) returns (names: set<string>)
    ensures forall name :: name in names <==> exists field :: field in row && ShowsUnder(row[field], name)
  {
    names := {};
    var todo := row.Keys;
    while todo != {}
      invariant todo <= row.Keys
      invariant forall name :: name in names <==> exists field :: field in row && field !in todo && ShowsUnder(row[field], name)
    {
      var field :| field in todo;
      names := names + set name | name in row[field].upstreams && IsShownValue(row[field].upstreams[name]);
      todo := todo - {field};
    }
  }

  method NamesWithDifference(table: Table) returns (names: set<string>)
    ensures forall name :: name in names <==> ShowsSomewhere(table, name)
  {
    names := {};
    var todo := table.Keys;
    while todo != {}
      invariant todo <= table.Keys
      invariant forall name :: name in names <==>
        exists model, field :: model in table && model !in todo && field in table[model] && ShowsUnder(table[model][field], name)
    {
      var model :| model in todo;
      var more := NamesInRow(table[model]);
      names := names + more;
      todo := todo - {model};
    }
  }

  ghost function KeptCell(table: Table, names: set<string>, field: string, model: string): Option<Item> {
    if model in table && field in table[model] then Kept(table[model][field], names) else None
  }

  function Kept(item: Item, names: set<string>): Option<Item> {
    if AllSame(Pruned(item, names)) then None else Some(Pruned(item, names))
  }

  ghost predicate IsPrunedRow(row: map<string, Item>, names: set<string>, left: map<string, Item>) {
    && (forall field :: field in left <==> field in row && Kept(row[field], names).Some?)
    && (forall field :: field in left ==> Kept(row[field], names) == Some(left[field]))
  }

  method PruneRow(row: map<string, Item>, names: set<string>) returns (left: map<string, Item>)
    ensures IsPrunedRow(row, names, left)
  {
    left := row;
    var todo := row.Keys;
    while todo != {}
      invariant todo <= row.Keys
      invariant forall field :: field in todo ==> field in left && left[field] == row[field]
      invariant forall field :: field !in todo ==> (field in left <==> field in row && Kept(row[field], names).Some?)
      invariant forall field :: field !in todo && field in left ==> Kept(row[field], names) == Some(left[field])
    {
      var field :| field in todo;
      var item := Pruned(left[field], names);
      if AllSame(item) {
        left := left - {field};
      } else {
        left := left[field := item];
      }
      todo := todo - {field};
    }
  }

  method Prune(table: Table, names: set<string>) returns (left: Table)
    ensures Holds(left, (field, model) => KeptCell(table, names, field, model))
  {
    left := map[];
    var todo := table.Keys;
    while todo != {}
      invariant todo <= table.Keys
      invariant forall model :: model in left ==> model in table && model !in todo && left[model] != map[]
      invariant forall model :: model in table && model !in todo ==>
        IsPrunedRow(table[model], names, if model in left then left[model] else map[])
    {
      var model :| model in todo;
      var row := PruneRow(table[model], names);
      if row != map[] {
        left := left[model := row];
      }
      todo := todo - {model};
    }
    PrunedRowsHold(table, names, left);
  }

  ghost predicate IsPrunedTable(table: Table, names: set<string>, left: Table) {
    && (forall model :: model in left ==> model in table && left[model] != map[])
    && (forall model :: model in table ==>
        IsPrunedRow(table[model], names, if model in left then left[model] else map[]))
  }

  lemma PrunedAt(table: Table, names: set<string>, left: Table, field: string, model: string)
    requires IsPrunedTable(table, names, left)
    ensures model in left && field in left[model] <==> KeptCell(table, names, field, model).Some?
    ensures model in left && field in left[model] ==> KeptCell(table, names, field, model) == Some(left[model][field])
  {
    if model in table {
      assert IsPrunedRow(table[model], names, if model in left then left[model] else map[]);
    }
  }

  lemma PrunedRowsHold(table: Table, names: set<string>, left: Table)
    requires IsPrunedTable(table, names, left)
    ensures Holds(left, (field, model) => KeptCell(table, names, field, model))
  {
    var cells: Cells := (field, model) => KeptCell(table, names, field, model);
    forall field, model
      ensures model in left && field in left[model] <==> cells(field, model).Some?
      ensures model in left && field in left[model] ==> cells(field, model) == Some(left[model][field])
    {
      PrunedAt(table, names, left, field, model);
    }
  }

  ghost predicate IsFirstPass(input: Input, table: Table) {
    Holds(table, (field, model) => FirstCell(input, field, model))
  }

  lemma FirstPassAt(input: Input, table: Table, field: string, model: string)
    requires IsFirstPass(input, table)
    ensures model in table && field in table[model] <==> InFirstPass(input, field, model)
    ensures model in table && field in table[model] ==> table[model][field] == FirstItem(input, field, model)
  {
    var cells: Cells := (field, model) => FirstCell(input, field, model);
    assert model in table && field in table[model] <==> cells(field, model).Some?;
    if model in table && field in table[model] {
      assert cells(field, model) == Some(table[model][field]);
    }
  }

  lemma ShownNameDiffers(input: Input, table: Table, name: string)
    requires DistinctNames(input.sources) && IsFirstPass(input, table) && ShowsSomewhere(table, name)
    ensures name in DifferingNames(input)
  {
    var model, field :| model in table && field in table[model] && ShowsUnder(table[model][field], name);
    FirstPassAt(input, table, field, model);
    UpstreamsNames(input, field, model, |input.sources|);
    var i :| 0 <= i < |input.sources| && input.sources[i].name == name;
    UpstreamsAt(input, field, model, |input.sources|, i);
    assert ShowsValue(input, i, field, model);
    DifferingNamesMeaning(input, i);
  }

  lemma DifferingNameShown(input: Input, table: Table, name: string)
    requires DistinctNames(input.sources) && IsFirstPass(input, table) && name in DifferingNames(input)
    ensures ShowsSomewhere(table, name)
  {
    var i :| 0 <= i < |input.sources| && SourceDiffers(input, i) && input.sources[i].name == name;
    var field, model :| ShowsValue(input, i, field, model);
    ValuesAreIncluded(input, i, field, model);
    FirstPassAt(input, table, field, model);
    UpstreamsAt(input, field, model, |input.sources|, i);
    assert ShowsUnder(table[model][field], name);
  }

  method BuildDifferences(input: Input) returns (differences: Table)
    requires DistinctNames(input.sources)
    ensures IsFinished(input, differences)
  {
    var first := FirstPass(input);
    var names := NamesWithDifference(first);
    forall name ensures name in names <==> name in DifferingNames(input) {
      if ShowsSomewhere(first, name) {
        ShownNameDiffers(input, first, name);
      }
      if name in DifferingNames(input) {
        DifferingNameShown(input, first, name);
      }
    }
    assert names == DifferingNames(input);
    differences := Prune(first, names);
    FinishedAfterPruning(input, first, differences);
  }

  lemma KeptCellIsCell(input: Input, first: Table, field: string, model: string)
    requires IsFirstPass(input, first)
    ensures KeptCell(first, DifferingNames(input), field, model) == Cell(input, field, model)
  {
    FirstPassAt(input, first, field, model);
  }

  lemma FinishedAfterPruning(input: Input, first: Table, differences: Table)
    requires IsFirstPass(input, first)
    requires Holds(differences, (field, model) => KeptCell(first, DifferingNames(input), field, model))
    ensures IsFinished(input, differences)
  {
    var kept: Cells := (field, model) => KeptCell(first, DifferingNames(input), field, model);
    var cells: Cells := (field, model) => Cell(input, field, model);
    forall field, model ensures kept(field, model) == cells(field, model) {
      KeptCellIsCell(input, first, field, model);
    }
    HoldsCongruence(differences, kept, cells);
  }

  lemma HoldsCongruence(table: Table, cells: Cells, cells': Cells)
    requires Holds(table, cells) && forall field, model :: cells(field, model) == cells'(field, model)
    ensures Holds(table, cells')
  {
    forall field, model ensures model in table && field in table[model] <==> cells'(field, model).Some? {
      assert cells(field, model) == cells'(field, model);
    }
  }
}
