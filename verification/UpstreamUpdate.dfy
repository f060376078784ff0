/**
 * Keeping a channel's model list in step with its upstream: a detection stores what could be added and
 * removed, and later applications of user selections consume those stored lists.
 */
module UpstreamUpdate {
  import opened ModelNames
  import opened Sequences
  import opened Strings

  const REGEX_PREFIX := "regex:"

  /** regexp.MatchString with an error counted as no match: (pattern, name) -> matched. */
  type Matcher = (string, string) -> bool

  datatype Settings = Settings(
    ignored: seq<string>,
    detected: seq<string>,
    removed: seq<string>,
    lastCheck: int,
    autoSync: bool)

  /** The channel columns the protocol reads and writes; `models` is the comma-separated field. */
  datatype Row = Row(models: string, settings: Settings)

  /** What a detection sees of the world outside the row. */
  datatype World = World(upstream: seq<string>, mapping: map<string, string>)

  function GetModels(row: Row): seq<string> {
    ReadList(row.models, ',')
  }

  predicate IsPattern(ignored: string) {
    REGEX_PREFIX <= ignored
  }

  predicate Covers(ignored: string, name: string, matches: Matcher) {
    if IsPattern(ignored) then matches(TrimSpace(ignored[|REGEX_PREFIX|..]), name) else ignored == name
  }

  predicate IgnoredBy(ignored: seq<string>, name: string, matches: Matcher) {
    exists i :: 0 <= i < |ignored| && Covers(ignored[i], name, matches)
  }

  /** Upstream names that are not local, not the target of a redirect and not ignored. */
  function PendingAdd(local: seq<string>, ignored: seq<string>, world: World, matches: Matcher): seq<string> {
    var names := Normalize(world.upstream);
    Keep(names, set name | name in names
      && name !in Normalize(local) && name !in world.mapping.Values && !IgnoredBy(Normalize(ignored), name, matches))
  }

  /** Local names that the upstream lacks, except the sources of redirects. */
  function PendingRemove(local: seq<string>, world: World): seq<string> {
    var names := Normalize(local);
    Keep(names, set name | name in names && name !in world.mapping.Keys && name !in Normalize(world.upstream))
  }

  /** The row after a detection without automatic application. */
  function Detected(row: Row, world: World, now: int, matches: Matcher): Row {
    row.(settings := row.settings.(
      detected := PendingAdd(GetModels(row), row.settings.ignored, world, matches),
      removed := PendingRemove(GetModels(row), world),
      lastCheck := now))
  }

  /** The row after a detection that adds what it found. */
  function AutoSynced(row: Row, world: World, now: int, matches: Matcher): Row {
    var found := Detected(row, world, now, matches);
    var merged := Merge(Normalize(GetModels(row)), found.settings.detected);
    found.(models := if AutoAdded(row, world, matches) > 0 then Join(merged, ',') else row.models,
           settings := found.settings.(detected := []))
  }

  /** How many names an automatic application adds. */
  function AutoAdded(row: Row, world: World, matches: Matcher): int {
    var origin := Normalize(GetModels(row));
    |Merge(origin, PendingAdd(GetModels(row), row.settings.ignored, world, matches))| - |origin|
  }

  datatype Selection = Selection(add: seq<string>, ignore: seq<string>, remove: seq<string>)

  /** The part of a request that the stored lists allow; an addition wins over a removal. */
  function Selected(row: Row, add: seq<string>, ignore: seq<string>, remove: seq<string>): Selection {
    var pendingAdd, pendingRemove := Normalize(row.settings.detected), Normalize(row.settings.removed);
    var adding := Intersect(add, pendingAdd);
    Selection(adding, Intersect(ignore, pendingAdd), Subtract(Intersect(remove, pendingRemove), adding))
  }

  function NextIgnored(ignored: seq<string>, sel: Selection): seq<string> {
    var merged := Merge(ignored, sel.ignore);
    if |sel.add| > 0 then Subtract(merged, sel.add) else merged
  }

  function Applied(row: Row, add: seq<string>, ignore: seq<string>, remove: seq<string>, now: int): Row {
    var sel := Selected(row, add, ignore, remove);
    var origin := Normalize(GetModels(row));
    var next := ApplySelected(origin, sel.add, sel.remove);
    Row(if origin == next then row.models else Join(next, ','),
        row.settings.(
          ignored := NextIgnored(row.settings.ignored, sel),
          detected := Subtract(Normalize(row.settings.detected), sel.add + sel.ignore),
          removed := Subtract(Normalize(row.settings.removed), sel.remove),
          lastCheck := now))
  }

  /** The stored lists are what a detection against this upstream would store now. */
  ghost predicate InStep(row: Row, world: World, matches: Matcher) {
    && row.settings.detected == PendingAdd(GetModels(row), row.settings.ignored, world, matches)
    && row.settings.removed == PendingRemove(GetModels(row), world)
  }
}
