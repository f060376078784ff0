/** The channel object that detections and applications update, with the database row behind it. */
module UpstreamChannel {
  import opened ModelNames
  import opened Sequences
  import opened Strings
  import opened UpstreamUpdate

  datatype Fetch = Fetched(upstream: seq<string>) | FetchFailed

  datatype Outcome = Done(modelsChanged: bool, autoAdded: nat) | NotFetched | NotSaved | NotIndexed(autoAdded: nat)

  method RedirectSets(mapping: map<string, string>) returns (sources: set<string>, targets: set<string>)
    ensures sources == mapping.Keys && targets == mapping.Values
  {
    sources, targets := {}, {};
    var todo := mapping.Keys;
    while todo != {}
      invariant todo <= mapping.Keys && sources == mapping.Keys - todo
      invariant targets == set source | source in sources :: mapping[source]
    {
      var source :| source in todo;
      sources, targets := sources + {source}, targets + {mapping[source]};
      todo := todo - {source};
    }
  }

  method CollectPendingUpstreamModelChanges(local: seq<string>, ignored: seq<string>, world: World, matches: Matcher)
    returns (add: seq<string>, remove: seq<string>)
    ensures add == PendingAdd(local, ignored, world, matches)
    ensures remove == PendingRemove(local, world)
  {
    var localNames, upstreamNames, ignoredNames := Normalize(local), Normalize(world.upstream), Normalize(ignored);
    var localSet := SetOf(localNames);
    var upstreamSet := SetOf(upstreamNames);
    var sources, targets := RedirectSets(world.mapping);
    var covered := localSet + targets;
    var adds := set name | name in upstreamNames && name !in covered && !IgnoredBy(ignoredNames, name, matches);
    var removes := set name | name in localNames && name !in sources && name !in upstreamSet;
    add, remove := Normalize(Keep(upstreamNames, adds)), Normalize(Keep(localNames, removes));
    NormalizeMeaning(world.upstream);
    NormalizeMeaning(local);
    KeepClean(upstreamNames, adds);
    KeepClean(localNames, removes);
    KeepCongruence(upstreamNames, adds, set name | name in upstreamNames
      && name !in localNames && name !in world.mapping.Values && !IgnoredBy(ignoredNames, name, matches));
    KeepCongruence(localNames, removes, set name | name in localNames
      && name !in world.mapping.Keys && name !in upstreamNames);
  }

  /** What a detection, automatic or not, wants the row to be. */
  method Plan(row: Row, world: World, now: int, matches: Matcher, auto: bool) returns (next: Row, autoAdded: nat)
    ensures next == if auto then AutoSynced(row, world, now, matches) else Detected(row, world, now, matches)
    ensures autoAdded == if auto then AutoAdded(row, world, matches) else 0
  {
    var add, remove := CollectPendingUpstreamModelChanges(GetModels(row), row.settings.ignored, world, matches);
    next, autoAdded := row.(settings := row.settings.(lastCheck := now, removed := remove)), 0;
    var origin := Normalize(GetModels(row));
    NormalizeMeaning(GetModels(row));
    NormalizeClean(origin);
    if auto && |add| > 0 {
      var merged := MergeModelNames(origin, add);
      if |merged| > |origin| {
        next := next.(models := Join(merged, ','));
        autoAdded := |merged| - |origin|;
      }
      next := next.(settings := next.settings.(detected := []));
    } else {
      next := next.(settings := next.settings.(detected := add));
    }
  }

  class Channel {
    var row: Row
    /** The row as the database holds it. */
    var stored: Row

    constructor (row: Row)
      ensures this.row == row && stored == row
    {
      this.row, stored := row, row;
    }

    /** Writes the settings column and, when asked, the models column. */
    method Save(settings: Settings, updateModels: bool, saveWorks: bool)
      modifies this
      ensures row == old(row).(settings := settings)
      ensures stored == if saveWorks
        then old(stored).(settings := settings, models := if updateModels then row.models else old(stored).models)
        else old(stored)
    {
      row := row.(settings := settings);
      if saveWorks {
        stored := stored.(settings := settings);
        if updateModels {
          stored := stored.(models := row.models);
        }
      }
    }

    /** A detection: skipped when too early, a bare timestamp when the fetch fails, applied at once in auto mode. */
    method CheckAndPersist(
      now: int, force: bool, minInterval: int, allowAutoApply: bool,
      fetch: Fetch, mapping: map<string, string>, matches: Matcher, saveWorks: bool, indexWorks: bool)
      returns (outcome: Outcome)
      requires row == stored
      modifies this
      ensures !force && old(row).settings.lastCheck > 0 && now - old(row).settings.lastCheck < minInterval
        ==> outcome == Done(false, 0) && row == stored == old(row)
      ensures (force || old(row).settings.lastCheck <= 0 || now - old(row).settings.lastCheck >= minInterval) ==>
        match fetch
        case FetchFailed =>
          && outcome == (if saveWorks then NotFetched else NotSaved)
          && row == old(row).(settings := old(row).settings.(lastCheck := now))
          && stored == (if saveWorks then row else old(row))
        case Fetched(upstream) =>
          var world := World(upstream, mapping);
          && row == (if allowAutoApply && old(row).settings.autoSync
                     then AutoSynced(old(row), world, now, matches) else Detected(old(row), world, now, matches))
          && stored == (if saveWorks then row else old(row))
          && var added := if allowAutoApply && old(row).settings.autoSync then AutoAdded(old(row), world, matches) else 0;
          && added >= 0
          && outcome == (if !saveWorks then NotSaved
                         else if added > 0 && !indexWorks then NotIndexed(added) else Done(added > 0, added))
    {
      var settings := row.settings;
      if !force {
        if settings.lastCheck > 0 && now - settings.lastCheck < minInterval {
          return Done(false, 0);
        }
      }
      settings := settings.(lastCheck := now);
      if fetch.FetchFailed? {
        Save(settings, false, saveWorks);
        return if saveWorks then NotFetched else NotSaved;
      }
      var world := World(fetch.upstream, mapping);
      var auto := allowAutoApply && settings.autoSync;
      var next, autoAdded := Plan(row.(settings := settings), world, now, matches, auto);
      var modelsChanged := autoAdded > 0;
      row := row.(models := next.models);
      settings := next.settings;
      Save(settings, modelsChanged, saveWorks);
      if !saveWorks {
        return NotSaved;
      }
      if modelsChanged && !indexWorks {
        return NotIndexed(autoAdded);
      }
      return Done(modelsChanged, autoAdded);
    }

    /** Applying a selection consumes the stored lists; a failed write leaves the database row alone. */
    method ApplyUpstreamModelUpdates(
      add: seq<string>, ignore: seq<string>, remove: seq<string>, now: int, saveWorks: bool, indexWorks: bool)
      returns (selection: Selection, modelsChanged: bool, ok: bool)
      requires row == stored
      modifies this
      ensures row == Applied(old(row), add, ignore, remove, now)
      ensures stored == if saveWorks then row else old(row)
      ensures saveWorks ==> selection == Selected(old(row), add, ignore, remove)
      ensures ok <==> saveWorks && (indexWorks || !modelsChanged)
      ensures saveWorks ==> (modelsChanged <==>
        Normalize(GetModels(old(row))) != ApplySelected(Normalize(GetModels(old(row))), selection.add, selection.remove))
    {
      var settings := row.settings;
      var pendingAdd, pendingRemove := Normalize(settings.detected), Normalize(settings.removed);
      var addModels := Intersect(add, pendingAdd);
      var ignoreModels := Intersect(ignore, pendingAdd);
      var removeModels := Intersect(remove, pendingRemove);
      removeModels := Subtract(removeModels, addModels);

      var origin := Normalize(GetModels(row));
      var next := ApplySelected(origin, addModels, removeModels);
      modelsChanged := origin != next;
      if modelsChanged {
        row := row.(models := Join(next, ','));
      }
      var ignoredModels := MergeModelNames(settings.ignored, ignoreModels);
      if |addModels| > 0 {
        ignoredModels := Subtract(ignoredModels, addModels);
      }
      settings := settings.(
        ignored := ignoredModels,
        detected := Subtract(pendingAdd, addModels + ignoreModels),
        removed := Subtract(pendingRemove, removeModels),
        lastCheck := now);
      Save(settings, modelsChanged, saveWorks);
      if !saveWorks {
        return Selection([], [], []), false, false;
      }
      return Selection(addModels, ignoreModels, removeModels), modelsChanged, indexWorks || !modelsChanged;
    }
  }
}
