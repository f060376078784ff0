/** The table of price differences between the local settings and several upstream price lists. */
module PriceTable {
  import opened Options

  const EPSILON := 0.000000001

  const FIELDS: seq<string> := [
    "model_ratio", "completion_ratio", "cache_ratio", "create_cache_ratio", "image_ratio",
    "audio_ratio", "audio_completion_ratio", "model_price", "billing_mode", "billing_expr"]

  /** A decoded JSON value; Null also stands for Go's nil. */
  datatype Value = Null | Num(number: real) | Text(text: string) | Flag(flag: bool)

  /** The marker shown where an upstream value agrees with the local one. */
  const SAME := Text("same")

  type Data = map<string, map<string, Value>>

  datatype Source = Source(name: string, data: Data)

  datatype Item = Item(current: Value, upstreams: map<string, Value>, confidence: map<string, bool>)

  type Table = map<string, map<string, Item>>

  datatype Input = Input(local: Data, sources: seq<Source>)

  predicate NearlyEqual(a: real, b: real) {
    if a > b then a - b < EPSILON else b - a < EPSILON
  }

  predicate ValuesEqual(a: Value, b: Value) {
    if a.Num? && b.Num? then NearlyEqual(a.number, b.number) else a == b
  }

  function Lookup(data: Data, field: string, model: string): Option<Value> {
    if field in data && model in data[field] then Some(data[field][model]) else None
  }

  /** The local value, nil when there is none. */
  function Current(local: Data, field: string, model: string): Value {
    var found := Lookup(local, field, model);
    if found.Some? then found.value else Null
  }

  /** What a source's cell shows: its value, the marker for an equal value, or nil for a value only we have. */
  function Shown(current: Value, found: Option<Value>): Value {
    if found.None? then (if current == Null then SAME else Null)
    else if ValuesEqual(current, found.value) then SAME
    else found.value
  }

  predicate IsShownValue(v: Value) {
    v != Null && v != SAME
  }

  predicate Disagrees(current: Value, found: Option<Value>) {
    if current == Null then IsShownValue(Shown(current, found))
    else found.Some? && !ValuesEqual(current, found.value)
  }

  /** A price list with the default ratios 37.5 and 1 for a model is not trusted on that model. */
  predicate Trusted(data: Data, model: string) {
    var ratio, completion := Lookup(data, "model_ratio", model), Lookup(data, "completion_ratio", model);
    !(ratio.Some? && completion.Some? && ratio.value.Num? && completion.value.Num?
      && NearlyEqual(ratio.value.number, 37.5) && NearlyEqual(completion.value.number, 1.0))
  }

  ghost predicate DistinctNames(sources: seq<Source>) {
    forall i, j :: 0 <= i < j < |sources| ==> sources[i].name != sources[j].name
  }

  /** What the i-th source's cell shows. */
  function ShownBy(input: Input, i: int, field: string, model: string): Value
    requires 0 <= i < |input.sources|
  {
    Shown(Current(input.local, field, model), Lookup(input.sources[i].data, field, model))
  }

  function Upstreams(input: Input, field: string, model: string, n: nat): map<string, Value>
    requires n <= |input.sources|
  {
    if n == 0 then map[]
    else
      Upstreams(input, field, model, n - 1)[input.sources[n - 1].name := ShownBy(input, n - 1, field, model)]
  }

  function Confidence(input: Input, model: string, n: nat): map<string, bool>
    requires n <= |input.sources|
  {
    if n == 0 then map[]
    else
      var source := input.sources[n - 1];
      Confidence(input, model, n - 1)[source.name := Trusted(source.data, model)]
  }

  function FirstItem(input: Input, field: string, model: string): Item {
    Item(Current(input.local, field, model),
         Upstreams(input, field, model, |input.sources|), Confidence(input, model, |input.sources|))
  }

  /** The first pass keeps a cell with a disagreement or, without a local value, with any upstream value. */
  ghost predicate Included(input: Input, field: string, model: string, n: nat)
    requires n <= |input.sources|
  {
    var current := Current(input.local, field, model);
    exists i :: 0 <= i < n &&
      var found := Lookup(input.sources[i].data, field, model);
      if current == Null then found.Some? else Disagrees(current, found)
  }

  ghost predicate InFirstPass(input: Input, field: string, model: string) {
    field in FIELDS && Included(input, field, model, |input.sources|)
  }

  function Pruned(item: Item, names: set<string>): Item {
    Item(item.current,
         map name | name in item.upstreams && name in names :: item.upstreams[name],
         map name | name in item.confidence && name in names :: item.confidence[name])
  }

  predicate AllSame(item: Item) {
    forall name :: name in item.upstreams ==> item.upstreams[name] == SAME
  }

  /** The names under which some first-pass cell shows a value of its own. */
  ghost function DifferingNames(input: Input): set<string> {
    set i | 0 <= i < |input.sources| && SourceDiffers(input, i) :: input.sources[i].name
  }

  ghost predicate ShowsValue(input: Input, i: int, field: string, model: string)
    requires 0 <= i < |input.sources|
  {
    field in FIELDS && IsShownValue(ShownBy(input, i, field, model))
  }

  ghost predicate SourceDiffers(input: Input, i: int)
    requires 0 <= i < |input.sources|
  {
    exists field, model :: ShowsValue(input, i, field, model)
  }

  /** The cell of the finished table. */
  ghost function Cell(input: Input, field: string, model: string): Option<Item> {
    if !InFirstPass(input, field, model) then None
    else
      var item := Pruned(FirstItem(input, field, model), DifferingNames(input));
      if AllSame(item) then None else Some(item)
  }

  /** A table without empty rows that holds exactly the given cells. */
  ghost predicate Holds(table: Table, cells: (string, string) -> Option<Item>) {
    && (forall model :: model in table ==> table[model] != map[])
    && (forall field, model :: model in table && field in table[model] <==> cells(field, model).Some?)
    && (forall field, model :: model in table && field in table[model] ==> cells(field, model) == Some(table[model][field]))
  }

  ghost predicate IsFinished(input: Input, table: Table) {
    Holds(table, (field, model) => Cell(input, field, model))
  }
}
