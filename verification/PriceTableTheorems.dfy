/** What a finished difference table says, and when it says nothing more. */
module PriceTableTheorems {
  import opened Options
  import opened PriceTable

  // ---- reading the cells ----

  lemma {:induction false} UpstreamsNames(input: Input, field: string, model: string, n: nat)
    requires n <= |input.sources|
    ensures forall name ::
      name in Upstreams(input, field, model, n) <==> exists i :: 0 <= i < n && input.sources[i].name == name
  {
    if n > 0 {
      UpstreamsNames(input, field, model, n - 1);
    }
  }

  lemma {:induction false} UpstreamsAt(input: Input, field: string, model: string, n: nat, i: nat)
    requires DistinctNames(input.sources) && i < n <= |input.sources|
    ensures var ups := Upstreams(input, field, model, n);
      input.sources[i].name in ups && ups[input.sources[i].name] == ShownBy(input, i, field, model)
  {
    if i < n - 1 {
      UpstreamsAt(input, field, model, n - 1, i);
    }
  }

  lemma {:induction false} ConfidenceNames(input: Input, model: string, n: nat)
    requires n <= |input.sources|
    ensures forall name ::
      name in Confidence(input, model, n) <==> exists i :: 0 <= i < n && input.sources[i].name == name
  {
    if n > 0 {
      ConfidenceNames(input, model, n - 1);
    }
  }

  lemma {:induction false} ConfidenceAt(input: Input, model: string, n: nat, i: nat)
    requires DistinctNames(input.sources) && i < n <= |input.sources|
    ensures var trust := Confidence(input, model, n);
      input.sources[i].name in trust && trust[input.sources[i].name] == Trusted(input.sources[i].data, model)
  {
    if i < n - 1 {
      ConfidenceAt(input, model, n - 1, i);
    }
  }

  lemma DifferingNamesMeaning(input: Input, i: int)
    requires DistinctNames(input.sources) && 0 <= i < |input.sources|
    ensures input.sources[i].name in DifferingNames(input) <==> SourceDiffers(input, i)
  {
  }

  /** A shown value of its own is always in the first pass. */
  lemma ValuesAreIncluded(input: Input, i: int, field: string, model: string)
    requires 0 <= i < |input.sources| && ShowsValue(input, i, field, model)
    ensures InFirstPass(input, field, model)
  {
    assert Included(input, field, model, |input.sources|) by {
      var found := Lookup(input.sources[i].data, field, model);
      assert found.Some?;
    }
  }

  ghost function PrunedItem(input: Input, field: string, model: string): Item {
    Pruned(FirstItem(input, field, model), DifferingNames(input))
  }

  lemma PrunedEntry(input: Input, field: string, model: string, i: int)
    requires DistinctNames(input.sources) && 0 <= i < |input.sources|
    ensures var item, name := PrunedItem(input, field, model), input.sources[i].name;
      && (name in item.upstreams <==> SourceDiffers(input, i))
      && (SourceDiffers(input, i) ==> item.upstreams[name] == ShownBy(input, i, field, model))
  {
    UpstreamsAt(input, field, model, |input.sources|, i);
    DifferingNamesMeaning(input, i);
  }

  lemma PrunedNames(input: Input, field: string, model: string, name: string) returns (i: int)
    requires name in PrunedItem(input, field, model).upstreams
    ensures 0 <= i < |input.sources| && input.sources[i].name == name
  {
    UpstreamsNames(input, field, model, |input.sources|);
    i :| 0 <= i < |input.sources| && input.sources[i].name == name;
  }

  /** The content of a surviving cell, source by source. */
  lemma CellContent(input: Input, field: string, model: string, i: int)
    requires DistinctNames(input.sources) && 0 <= i < |input.sources|
    requires Cell(input, field, model).Some?
    ensures var item, name := Cell(input, field, model).value, input.sources[i].name;
      && item.current == Current(input.local, field, model)
      && (name in item.upstreams <==> SourceDiffers(input, i))
      && (name in item.confidence <==> SourceDiffers(input, i))
      && (SourceDiffers(input, i) ==>
            && item.upstreams[name] == ShownBy(input, i, field, model)
            && item.confidence[name] == Trusted(input.sources[i].data, model))
  {
    UpstreamsAt(input, field, model, |input.sources|, i);
    ConfidenceAt(input, model, |input.sources|, i);
    DifferingNamesMeaning(input, i);
  }

  /** Completeness: no real difference is lost, neither its cell nor its value. */
  lemma NoDifferenceLost(input: Input, field: string, model: string, i: int)
    requires DistinctNames(input.sources) && 0 <= i < |input.sources|
    requires ShowsValue(input, i, field, model)
    ensures var cell := Cell(input, field, model);
      && cell.Some?
      && input.sources[i].name in cell.value.upstreams
      && Some(cell.value.upstreams[input.sources[i].name]) == Lookup(input.sources[i].data, field, model)
  {
    ValuesAreIncluded(input, i, field, model);
    PrunedEntry(input, field, model, i);
    assert PrunedItem(input, field, model).upstreams[input.sources[i].name] != SAME;
  }

  // ---- prices, texts and confidence, read from the data itself ----

  predicate IsField(field: string) {
    field in [
      "model_ratio", "completion_ratio", "cache_ratio", "create_cache_ratio", "image_ratio",
      "audio_ratio", "audio_completion_ratio", "model_price", "billing_mode", "billing_expr"]
  }

  /** The data gives this value to a model in a field. */
  predicate Gives(data: Data, field: string, model: string, value: Value) {
    field in data && model in data[field] && data[field][model] == value
  }

  predicate GivesNone(data: Data, field: string, model: string) {
    field in data ==> model !in data[field]
  }

  /** The cell is there and shows this value for the i-th source. */
  ghost predicate ShowsIn(input: Input, i: int, field: string, model: string, value: Value)
    requires 0 <= i < |input.sources|
  {
    var cell, name := Cell(input, field, model), input.sources[i].name;
    cell.Some? && name in cell.value.upstreams && cell.value.upstreams[name] == value
  }

  /** The cell lists the i-th source at all. */
  ghost predicate ListedIn(input: Input, i: int, field: string, model: string)
    requires 0 <= i < |input.sources|
  {
    Cell(input, field, model).Some? && input.sources[i].name in Cell(input, field, model).value.upstreams
  }

  lemma ShownOrNot(input: Input, i: int, field: string, model: string)
    requires DistinctNames(input.sources) && 0 <= i < |input.sources|
    ensures ListedIn(input, i, field, model) ==> ShowsIn(input, i, field, model, ShownBy(input, i, field, model))
    ensures ShowsValue(input, i, field, model) ==> ListedIn(input, i, field, model)
  {
    if Cell(input, field, model).Some? {
      CellContent(input, field, model, i);
    }
    if ShowsValue(input, i, field, model) {
      NoDifferenceLost(input, field, model, i);
    }
  }

  /** Two numbers differ when they are a billionth or more apart; then the cell shows the upstream one. */
  lemma NumbersShownIff(input: Input, i: int, field: string, model: string, u: real, v: real)
    requires DistinctNames(input.sources) && 0 <= i < |input.sources| && IsField(field)
    requires Gives(input.local, field, model, Num(u)) && Gives(input.sources[i].data, field, model, Num(v))
    ensures ShowsIn(input, i, field, model, Num(v)) <==> u - v >= 0.000000001 || v - u >= 0.000000001
    ensures ListedIn(input, i, field, model) && !ShowsIn(input, i, field, model, Num(v)) ==>
      ShowsIn(input, i, field, model, Text("same"))
  {
    ShownOrNot(input, i, field, model);
  }

  /** Any other two values differ when they are not the same; then the cell shows the upstream one. */
  lemma ValuesShownIff(input: Input, i: int, field: string, model: string, u: Value, v: Value)
    requires DistinctNames(input.sources) && 0 <= i < |input.sources| && IsField(field)
    requires Gives(input.local, field, model, u) && Gives(input.sources[i].data, field, model, v)
    requires !(u.Num? && v.Num?) && v != Null && v != Text("same")
    ensures ShowsIn(input, i, field, model, v) <==> u != v
    ensures ListedIn(input, i, field, model) && u == v ==> ShowsIn(input, i, field, model, Text("same"))
  {
    ShownOrNot(input, i, field, model);
  }

  /** A value for a model without a local one is always shown. */
  lemma NewValueShown(input: Input, i: int, field: string, model: string, v: Value)
    requires DistinctNames(input.sources) && 0 <= i < |input.sources| && IsField(field)
    requires GivesNone(input.local, field, model) && Gives(input.sources[i].data, field, model, v)
    requires v != Null && v != Text("same")
    ensures ShowsIn(input, i, field, model, v)
  {
    ShownOrNot(input, i, field, model);
  }

  /** A source without a value shows nil where there is a local value, and the marker where there is none. */
  lemma MissingValueShown(input: Input, i: int, field: string, model: string)
    requires DistinctNames(input.sources) && 0 <= i < |input.sources|
    requires GivesNone(input.sources[i].data, field, model) && ListedIn(input, i, field, model)
    ensures GivesNone(input.local, field, model) ==> ShowsIn(input, i, field, model, Text("same"))
    ensures (exists u :: u != Null && Gives(input.local, field, model, u)) ==> ShowsIn(input, i, field, model, Null)
  {
    ShownOrNot(input, i, field, model);
  }

  /** Two values are apart: numbers by a billionth or more, others by not being the same. */
  predicate Apart(u: Value, v: Value) {
    if u.Num? && v.Num? then u.number - v.number >= 0.000000001 || v.number - u.number >= 0.000000001 else u != v
  }

  /** The i-th source gives the model a proper value that is new or apart from the local one. */
  ghost predicate ReallyDiffers(input: Input, i: int, field: string, model: string)
    requires 0 <= i < |input.sources|
  {
    exists v :: Gives(input.sources[i].data, field, model, v) && v != Null && v != Text("same")
                && forall u :: Gives(input.local, field, model, u) ==> Apart(u, v)
  }

  lemma ShowsValueIff(input: Input, i: int, field: string, model: string)
    requires 0 <= i < |input.sources|
    ensures ShowsValue(input, i, field, model) <==> IsField(field) && ReallyDiffers(input, i, field, model)
  {
    var current, found := Current(input.local, field, model), Lookup(input.sources[i].data, field, model);
    assert field in FIELDS <==> IsField(field);
    if found.Some? {
      assert Gives(input.sources[i].data, field, model, found.value);
      assert Lookup(input.local, field, model).Some? ==> Gives(input.local, field, model, current);
    }
  }

  /** Which cells list a source: every one, if it really differs somewhere, and none otherwise. */
  lemma ListedIff(input: Input, i: int, field: string, model: string)
    requires DistinctNames(input.sources) && 0 <= i < |input.sources| && Cell(input, field, model).Some?
    ensures ListedIn(input, i, field, model) <==>
      exists field', model' :: IsField(field') && ReallyDiffers(input, i, field', model')
  {
    CellContent(input, field, model, i);
    forall field', model'
      ensures ShowsValue(input, i, field', model') <==> IsField(field') && ReallyDiffers(input, i, field', model')
    {
      ShowsValueIff(input, i, field', model');
    }
  }

  /** A cell says what the local value is. */
  lemma LocalShown(input: Input, field: string, model: string)
    requires Cell(input, field, model).Some?
    ensures GivesNone(input.local, field, model) ==> Cell(input, field, model).value.current == Null
    ensures forall u :: Gives(input.local, field, model, u) ==> Cell(input, field, model).value.current == u
  {
  }

  /** A listed source is trusted on a model unless it gives it the ratios 37.5 and 1, to a billionth. */
  lemma ConfidenceIff(input: Input, i: int, field: string, model: string)
    requires DistinctNames(input.sources) && 0 <= i < |input.sources| && ListedIn(input, i, field, model)
    ensures var confidence, name, data := Cell(input, field, model).value.confidence, input.sources[i].name, input.sources[i].data;
      && name in confidence
      && (!confidence[name] <==> exists a, b ::
            && Gives(data, "model_ratio", model, Num(a)) && Gives(data, "completion_ratio", model, Num(b))
            && 37.5 - 0.000000001 < a < 37.5 + 0.000000001 && 1.0 - 0.000000001 < b < 1.0 + 0.000000001)
  {
    CellContent(input, field, model, i);
    var data := input.sources[i].data;
    assert Trusted(data, model) == !exists a, b ::
            && Gives(data, "model_ratio", model, Num(a)) && Gives(data, "completion_ratio", model, Num(b))
            && 37.5 - 0.000000001 < a < 37.5 + 0.000000001 && 1.0 - 0.000000001 < b < 1.0 + 0.000000001 by {
      var ratio, completion := Lookup(data, "model_ratio", model), Lookup(data, "completion_ratio", model);
      if !Trusted(data, model) {
        assert Gives(data, "model_ratio", model, Num(ratio.value.number))
          && Gives(data, "completion_ratio", model, Num(completion.value.number));
      }
    }
  }

  // ---- soundness ----

  ghost predicate HasRealDifference(input: Input, field: string, model: string) {
    exists i :: 0 <= i < |input.sources| && ShowsValue(input, i, field, model)
  }

  /**
   * A cell without a real difference survives: a source holds an explicit null or the marker text itself
   * where we have another value, and a source that differs elsewhere shows nil here.
   */
  ghost predicate Phantom(input: Input, field: string, model: string) {
    && field in FIELDS
    && Current(input.local, field, model) != Null
    && !HasRealDifference(input, field, model)
    && (exists i :: 0 <= i < |input.sources| && OddDisagreement(input, i, field, model))
    && (exists i :: 0 <= i < |input.sources| && SourceDiffers(input, i) && ShowsNil(input, i, field, model))
  }

  ghost predicate OddDisagreement(input: Input, i: int, field: string, model: string)
    requires 0 <= i < |input.sources|
  {
    var found := Lookup(input.sources[i].data, field, model);
    && found.Some? && !IsShownValue(found.value)
    && !ValuesEqual(Current(input.local, field, model), found.value)
  }

  ghost predicate ShowsNil(input: Input, i: int, field: string, model: string)
    requires 0 <= i < |input.sources|
  {
    ShownBy(input, i, field, model) == Null
  }

  lemma PhantomSurvives(input: Input, field: string, model: string)
    requires DistinctNames(input.sources) && Phantom(input, field, model)
    ensures Cell(input, field, model).Some?
  {
    var i :| 0 <= i < |input.sources| && OddDisagreement(input, i, field, model);
    var j :| 0 <= j < |input.sources| && SourceDiffers(input, j) && ShowsNil(input, j, field, model);
    assert Included(input, field, model, |input.sources|) by {
      assert Disagrees(Current(input.local, field, model), Lookup(input.sources[i].data, field, model));
    }
    PrunedEntry(input, field, model, j);
    assert PrunedItem(input, field, model).upstreams[input.sources[j].name] != SAME;
  }

  lemma UnrealCellsArePhantoms(input: Input, field: string, model: string)
    requires DistinctNames(input.sources)
    requires Cell(input, field, model).Some? && !HasRealDifference(input, field, model)
    ensures Phantom(input, field, model)
  {
    var current := Current(input.local, field, model);
    var item := PrunedItem(input, field, model);
    var name :| name in item.upstreams && item.upstreams[name] != SAME;
    var j := PrunedNames(input, field, model, name);
    PrunedEntry(input, field, model, j);
    assert !ShowsValue(input, j, field, model);
    assert ShowsNil(input, j, field, model);
    var i :| 0 <= i < |input.sources| &&
      var found := Lookup(input.sources[i].data, field, model);
      if current == Null then found.Some? else Disagrees(current, found);
    assert !ShowsValue(input, i, field, model);
    assert OddDisagreement(input, i, field, model);
  }

  /**
   * The table is sound and complete — a cell is there iff some source has a new or different value for it
   * — exactly when the input has no phantom cell.
   */
  lemma SoundAndCompleteIff(input: Input)
    requires DistinctNames(input.sources)
    ensures (forall field, model :: Cell(input, field, model).Some? <==> HasRealDifference(input, field, model))
      <==> (forall field, model :: !Phantom(input, field, model))
  {
    forall field, model ensures HasRealDifference(input, field, model) ==> Cell(input, field, model).Some? {
      if i :| 0 <= i < |input.sources| && ShowsValue(input, i, field, model) {
        NoDifferenceLost(input, field, model, i);
      }
    }
    forall field, model
      ensures Cell(input, field, model).Some? && !HasRealDifference(input, field, model) <==> Phantom(input, field, model)
    {
      if Phantom(input, field, model) {
        PhantomSurvives(input, field, model);
      }
      if Cell(input, field, model).Some? && !HasRealDifference(input, field, model) {
        UnrealCellsArePhantoms(input, field, model);
      }
    }
  }

  /** One source has null for the price we have, another differs on a different model: a phantom cell. */
  function PhantomInput(): Input {
    Input(map["model_price" := map["m" := Num(1.0)]],
          [Source("a", map["model_price" := map["m" := Null]]), Source("b", map["model_ratio" := map["x" := Num(2.0)]])])
  }

  lemma PhantomsExist()
    ensures var input := PhantomInput();
      && DistinctNames(input.sources) && Phantom(input, "model_price", "m")
      && Cell(input, "model_price", "m").Some? && !HasRealDifference(input, "model_price", "m")
  {
    var input := PhantomInput();
    assert FIELDS[7] == "model_price" && FIELDS[0] == "model_ratio";
    assert OddDisagreement(input, 0, "model_price", "m");
    assert ShowsValue(input, 1, "model_ratio", "x");
    assert SourceDiffers(input, 1) && ShowsNil(input, 1, "model_price", "m");
    PhantomSurvives(input, "model_price", "m");
  }

  /** No source holds an explicit null or the marker text. */
  ghost predicate Genuine(input: Input) {
    forall i, field, model :: 0 <= i < |input.sources| ==>
      var found := Lookup(input.sources[i].data, field, model); found.Some? ==> IsShownValue(found.value)
  }

  /** With genuine upstream values, a cell is there iff some source has a new or different value for it. */
  lemma GenuineTablesAreExact(input: Input, field: string, model: string)
    requires DistinctNames(input.sources) && Genuine(input)
    ensures Cell(input, field, model).Some? <==> HasRealDifference(input, field, model)
    ensures HasRealDifference(input, field, model) <==>
      field in FIELDS && exists i :: 0 <= i < |input.sources| && Differs(input, i, field, model)
  {
    forall field, model ensures !Phantom(input, field, model) {
    }
    SoundAndCompleteIff(input);
    forall i | 0 <= i < |input.sources|
      ensures field in FIELDS ==> (ShowsValue(input, i, field, model) <==> Differs(input, i, field, model))
    {
    }
  }

  /** The source has a value where we have none, or one that is not equal to ours. */
  predicate Differs(input: Input, i: int, field: string, model: string)
    requires 0 <= i < |input.sources|
  {
    var current, found := Current(input.local, field, model), Lookup(input.sources[i].data, field, model);
    found.Some? && (current == Null || !ValuesEqual(current, found.value))
  }

  // ---- order ----

  type Cells = (string, string) -> Option<Item>

  lemma RowsSubset(cells: Cells, cells': Cells, s: Table, t: Table)
    requires forall field, model :: cells(field, model) == cells'(field, model)
    requires Holds(s, cells) && Holds(t, cells')
    ensures forall model :: model in s ==> model in t
    ensures forall model, field :: model in s && field in s[model] ==> field in t[model] && t[model][field] == s[model][field]
  {
    forall model | model in s ensures model in t {
      var field :| field in s[model];
      assert cells(field, model).Some?;
      assert cells'(field, model).Some?;
    }
    forall model, field | model in s && field in s[model]
      ensures field in t[model] && t[model][field] == s[model][field]
    {
      assert cells(field, model) == Some(s[model][field]);
      assert cells'(field, model).Some?;
    }
  }

  /** The cells determine the table. */
  lemma TableDetermined(cells: Cells, cells': Cells, s: Table, t: Table)
    requires forall field, model :: cells(field, model) == cells'(field, model)
    requires Holds(s, cells) && Holds(t, cells')
    ensures s == t
  {
    RowsSubset(cells, cells', s, t);
    RowsSubset(cells', cells, t, s);
    forall model | model in s ensures s[model] == t[model] {
      assert forall field :: field in s[model] <==> field in t[model];
    }
  }

  ghost predicate Rearranged(a: Input, b: Input) {
    && a.local == b.local
    && DistinctNames(a.sources) && DistinctNames(b.sources)
    && (forall source :: source in a.sources <==> source in b.sources)
  }

  lemma SameIndex(a: Input, b: Input, i: int) returns (j: int)
    requires Rearranged(a, b) && 0 <= i < |a.sources|
    ensures 0 <= j < |b.sources| && b.sources[j] == a.sources[i]
  {
    assert a.sources[i] in b.sources;
    j :| 0 <= j < |b.sources| && b.sources[j] == a.sources[i];
  }

  lemma RearrangedUpstreams(a: Input, b: Input, field: string, model: string)
    requires Rearranged(a, b)
    ensures Upstreams(a, field, model, |a.sources|) == Upstreams(b, field, model, |b.sources|)
  {
    var s, t := Upstreams(a, field, model, |a.sources|), Upstreams(b, field, model, |b.sources|);
    UpstreamsNames(a, field, model, |a.sources|);
    UpstreamsNames(b, field, model, |b.sources|);
    forall name ensures name in s ==> name in t && s[name] == t[name] {
      if name in s {
        var i :| 0 <= i < |a.sources| && a.sources[i].name == name;
        var j := SameIndex(a, b, i);
        UpstreamsAt(a, field, model, |a.sources|, i);
        UpstreamsAt(b, field, model, |b.sources|, j);
      }
    }
    forall name ensures name in t ==> name in s {
      if name in t {
        var j :| 0 <= j < |b.sources| && b.sources[j].name == name;
        var i := SameIndex(b, a, j);
      }
    }
  }

  lemma RearrangedConfidence(a: Input, b: Input, model: string)
    requires Rearranged(a, b)
    ensures Confidence(a, model, |a.sources|) == Confidence(b, model, |b.sources|)
  {
    var s, t := Confidence(a, model, |a.sources|), Confidence(b, model, |b.sources|);
    ConfidenceNames(a, model, |a.sources|);
    ConfidenceNames(b, model, |b.sources|);
    forall name ensures name in s ==> name in t && s[name] == t[name] {
      if name in s {
        var i :| 0 <= i < |a.sources| && a.sources[i].name == name;
        var j := SameIndex(a, b, i);
        ConfidenceAt(a, model, |a.sources|, i);
        ConfidenceAt(b, model, |b.sources|, j);
      }
    }
    forall name ensures name in t ==> name in s {
      if name in t {
        var j :| 0 <= j < |b.sources| && b.sources[j].name == name;
        var i := SameIndex(b, a, j);
      }
    }
  }

  lemma RearrangedInclusion(a: Input, b: Input, field: string, model: string)
    requires Rearranged(a, b) && InFirstPass(a, field, model)
    ensures InFirstPass(b, field, model)
  {
    var current := Current(a.local, field, model);
    var i :| 0 <= i < |a.sources| &&
      var found := Lookup(a.sources[i].data, field, model);
      if current == Null then found.Some? else Disagrees(current, found);
    var j := SameIndex(a, b, i);
    assert Included(b, field, model, |b.sources|) by {
      assert b.sources[j].data == a.sources[i].data;
    }
  }

  lemma RearrangedNames(a: Input, b: Input)
    requires Rearranged(a, b)
    ensures DifferingNames(a) <= DifferingNames(b)
  {
    forall name | name in DifferingNames(a) ensures name in DifferingNames(b) {
      var i :| 0 <= i < |a.sources| && SourceDiffers(a, i) && a.sources[i].name == name;
      var field, model :| ShowsValue(a, i, field, model);
      var j := SameIndex(a, b, i);
      assert ShowsValue(b, j, field, model);
    }
  }

  lemma RearrangedCell(a: Input, b: Input, field: string, model: string)
    requires Rearranged(a, b) && DifferingNames(a) == DifferingNames(b)
    ensures Cell(a, field, model) == Cell(b, field, model)
  {
    RearrangedUpstreams(a, b, field, model);
    RearrangedConfidence(a, b, model);
    assert FirstItem(a, field, model) == FirstItem(b, field, model);
    if InFirstPass(a, field, model) {
      RearrangedInclusion(a, b, field, model);
    }
    if InFirstPass(b, field, model) {
      RearrangedInclusion(b, a, field, model);
    }
  }

  /** The table does not depend on the order in which the upstream answers arrive. */
  lemma ArrivalOrderIrrelevant(a: Input, b: Input, s: Table, t: Table)
    requires Rearranged(a, b) && IsFinished(a, s) && IsFinished(b, t)
    ensures s == t
  {
    RearrangedNames(a, b);
    RearrangedNames(b, a);
    var cells: Cells, cells': Cells := (field, model) => Cell(a, field, model), (field, model) => Cell(b, field, model);
    forall field, model ensures cells(field, model) == cells'(field, model) {
      RearrangedCell(a, b, field, model);
    }
    TableDetermined(cells, cells', s, t);
  }
}
