/** Theorems about detecting upstream changes and applying selections of them. */
module UpstreamProtocol {
  import opened ModelNames
  import opened Sequences
  import opened Strings
  import opened UpstreamUpdate

  // ---- facts about the stored lists ----

  function Local(row: Row): seq<string> {
    Normalize(GetModels(row))
  }

  predicate Addable(row: Row, world: World, matches: Matcher, name: string) {
    && name in Normalize(world.upstream)
    && name !in Local(row)
    && name !in world.mapping.Values
    && !IgnoredBy(Normalize(row.settings.ignored), name, matches)
  }

  predicate Removable(row: Row, world: World, name: string) {
    && name in Local(row)
    && name !in world.mapping.Keys
    && name !in Normalize(world.upstream)
  }

  /** A detection is sound and complete, and never offers one name for addition and for removal. */
  lemma DetectionMeaning(row: Row, world: World, matches: Matcher)
    ensures var add := PendingAdd(GetModels(row), row.settings.ignored, world, matches);
      var remove := PendingRemove(GetModels(row), world);
      && Clean(add) && Clean(remove) && Normalize(add) == add && Normalize(remove) == remove
      && (forall name :: name in add <==> Addable(row, world, matches, name))
      && (forall name :: name in remove <==> Removable(row, world, name))
  {
    var names, ignored, local := Normalize(world.upstream), Normalize(row.settings.ignored), Local(row);
    var adds := set name | name in names
      && name !in local && name !in world.mapping.Values && !IgnoredBy(ignored, name, matches);
    var removes := set name | name in local && name !in world.mapping.Keys && name !in names;
    NormalizeMeaning(world.upstream);
    NormalizeMeaning(GetModels(row));
    KeepMembers(names, adds);
    KeepMembers(local, removes);
    KeepClean(names, adds);
    KeepClean(local, removes);
  }

  lemma IgnoredInPlainTerms(ignored: seq<string>, name: string, matches: Matcher)
    ensures IgnoredBy(ignored, name, matches) <==>
      || (exists body: string :: "regex:" + body in ignored && matches(TrimSpace(body), name))
      || (name in ignored && !("regex:" <= name))
  {
    if IgnoredBy(ignored, name, matches) {
      var i :| 0 <= i < |ignored| && Covers(ignored[i], name, matches);
      if "regex:" <= ignored[i] {
        var body := ignored[i][6..];
        assert "regex:" + body == ignored[i] && ignored[i] in ignored;
      }
    }
    if body: string :| "regex:" + body in ignored && matches(TrimSpace(body), name) {
      var i :| 0 <= i < |ignored| && ignored[i] == "regex:" + body;
      assert ignored[i][6..] == body && "regex:" <= ignored[i];
      assert Covers(ignored[i], name, matches);
    } else if name in ignored && !("regex:" <= name) {
      var i :| 0 <= i < |ignored| && ignored[i] == name;
      assert Covers(ignored[i], name, matches);
    }
  }

  /**
   * Which names are offered for addition: upstream ones that are neither local nor a redirect target, that no
   * "regex:" entry of the ignore list matches and that no other entry equals.
   */
  lemma OfferedIff(row: Row, world: World, matches: Matcher, name: string)
    ensures name in PendingAdd(GetModels(row), row.settings.ignored, world, matches) <==>
      && name in Normalize(world.upstream)
      && name !in Normalize(Split(row.models, ','))
      && (forall source :: source in world.mapping ==> world.mapping[source] != name)
      && (forall body: string :: "regex:" + body in Normalize(row.settings.ignored) ==> !matches(TrimSpace(body), name))
      && (name in Normalize(row.settings.ignored) ==> "regex:" <= name)
  {
    DetectionMeaning(row, world, matches);
    ReadListNames(row.models, ',');
    IgnoredInPlainTerms(Normalize(row.settings.ignored), name, matches);
    assert name in world.mapping.Values <==> exists source :: source in world.mapping && world.mapping[source] == name;
  }

  /** Which names are offered for removal: local ones that upstream lacks and that are not redirected. */
  lemma RemovalOfferedIff(row: Row, world: World, name: string)
    ensures name in PendingRemove(GetModels(row), world) <==>
      && name in Normalize(Split(row.models, ','))
      && name !in Normalize(world.upstream)
      && name !in world.mapping
  {
    DetectionMeaning(row, world, (pattern, name) => false);
    ReadListNames(row.models, ',');
  }

  /** A channel that ignores one pattern is not offered what the pattern matches. */
  lemma PatternHides(body: string, name: string, matches: Matcher)
    requires Clean(["regex:" + body]) && TrimSpace(body) == body && matches(body, name)
    ensures name !in PendingAdd([], ["regex:" + body], World([name], map[]), matches)
  {
    var row := Row("", Settings(["regex:" + body], [], [], 0, false));
    NormalizeClean(["regex:" + body]);
    assert "regex:" + body in ["regex:" + body];
    OfferedIff(row, World([name], map[]), matches, name);
  }

  /** So regex:^x hides xa. */
  lemma PatternHidesName(matches: Matcher)
    requires matches("^x", "xa")
    ensures "xa" !in PendingAdd([], ["regex:^x"], World(["xa"], map[]), matches)
  {
    TrimMeaning("^x", WHITESPACE);
    assert "regex:" + "^x" == "regex:^x";
    PatternHides("^x", "xa", matches);
  }

  lemma SelectionMeaning(row: Row, world: World, matches: Matcher, add: seq<string>, ignore: seq<string>, remove: seq<string>)
    requires InStep(row, world, matches)
    ensures var sel := Selected(row, add, ignore, remove);
      && Clean(sel.add) && Clean(sel.ignore) && Clean(sel.remove)
      && (forall name :: name in sel.add <==> name in Normalize(add) && Addable(row, world, matches, name))
      && (forall name :: name in sel.ignore <==> name in Normalize(ignore) && Addable(row, world, matches, name))
      && (forall name :: name in sel.remove <==> name in Normalize(remove) && Removable(row, world, name))
  {
    DetectionMeaning(row, world, matches);
    var pendingAdd, pendingRemove := Normalize(row.settings.detected), Normalize(row.settings.removed);
    var adding := Intersect(add, pendingAdd);
    IntersectMeaning(add, pendingAdd);
    IntersectMeaning(ignore, pendingAdd);
    IntersectMeaning(remove, pendingRemove);
    SubtractMeaning(Intersect(remove, pendingRemove), adding);
    NormalizeClean(adding);
    NormalizeClean(Intersect(remove, pendingRemove));
  }

  /** The new list: the local names without the removed ones, then the added ones. */
  lemma NextNames(row: Row, world: World, matches: Matcher, sel: Selection)
    requires Clean(sel.add) && Clean(sel.remove)
    requires forall name :: name in sel.add ==> Addable(row, world, matches, name)
    requires forall name :: name in sel.remove ==> Removable(row, world, name)
    ensures var next := ApplySelected(Local(row), sel.add, sel.remove);
      && next == Drop(Local(row), Elems(sel.remove)) + sel.add
      && Clean(next)
  {
    var local := Local(row);
    NormalizeMeaning(GetModels(row));
    NormalizeClean(local);
    NormalizeClean(sel.add);
    NormalizeClean(sel.remove);
    ApplySelectedMeaning(local, sel.add, sel.remove);
    KeepCongruence(local, Elems(local) - (Elems(sel.remove) - Elems(sel.add)), Elems(local) - Elems(sel.remove));
    KeepAll(sel.add, Elems(sel.add) - Elems(local));
  }

  /** No local name holds a comma, since the list is read from a comma-separated field. */
  lemma LocalNamesHaveNoComma(row: Row)
    ensures Separable(Local(row), ',')
  {
    NormalizeMeaning(GetModels(row));
    ReadListShape(row.models, ',');
    var local, parts := Local(row), GetModels(row);
    forall i | 0 <= i < |local| ensures ',' !in local[i] {
      assert local[i] in local;
      var j :| 0 <= j < |parts| && TrimSpace(parts[j]) == local[i];
      TrimMeaning(parts[j], WHITESPACE);
    }
  }

  /** The names that come out of the added ones when the new list is stored and read: commas split them. */
  function Arrivals(row: Row, sel: Selection): seq<string> {
    NewNames(Drop(Local(row), Elems(sel.remove)), sel.add, ',')
  }

  /** The stored model field reads back as the surviving local names, then the arrivals. */
  lemma NextNamesReadBack(row: Row, world: World, matches: Matcher, sel: Selection, next: seq<string>, applied: Row)
    requires Clean(next) && next == Drop(Local(row), Elems(sel.remove)) + sel.add
    requires forall name :: name in sel.add ==> Addable(row, world, matches, name)
    requires applied.models == if Local(row) == next then row.models else Join(next, ',')
    ensures Local(applied) == Drop(Local(row), Elems(sel.remove)) + Arrivals(row, sel)
  {
    var kept := Drop(Local(row), Elems(sel.remove));
    if Local(row) == next {
      assert GetModels(applied) == GetModels(row);
      assert forall name :: name in sel.add ==> name in kept + sel.add;
      NonEmptyHasMember(sel.add);
      assert sel.add == [] && kept + [] == kept;
    } else {
      LocalNamesHaveNoComma(row);
      NormalizeMeaning(GetModels(row));
      KeepClean(Local(row), Elems(Local(row)) - Elems(sel.remove));
      DropMembers(Local(row), Elems(sel.remove));
      forall i | 0 <= i < |kept| ensures ',' !in kept[i] {
        assert kept[i] in kept && kept[i] in Local(row);
      }
      JoinedNames(kept, sel.add, ',');
    }
  }

  /** Without a comma in an added name, what arrives is what was added. */
  lemma PlainArrivals(row: Row, world: World, matches: Matcher, sel: Selection)
    requires Clean(sel.add) && Separable(sel.add, ',')
    requires forall name :: name in sel.add ==> Addable(row, world, matches, name)
    ensures Arrivals(row, sel) == sel.add
  {
    DropMembers(Local(row), Elems(sel.remove));
    NewNamesSeparable(Drop(Local(row), Elems(sel.remove)), sel.add, ',');
  }

  // ---- the protocol ----

  /** A name that is not local yet is off the table afterwards iff it was ignored before or is dealt with now. */
  ghost predicate TakesEffectOn(row: Row, world: World, sel: Selection, matches: Matcher, name: string) {
    name !in Local(row) && name !in world.mapping.Values ==>
      (IgnoredBy(Normalize(NextIgnored(row.settings.ignored, sel)), name, matches) || name in Arrivals(row, sel)
       <==> IgnoredBy(Normalize(row.settings.ignored), name, matches) || name in sel.add || name in sel.ignore)
  }

  /** The pieces that arrive and the ignore list written back deal with each upstream name as was asked. */
  ghost predicate AddsTakeEffect(row: Row, world: World, sel: Selection, matches: Matcher) {
    forall name :: name in Normalize(world.upstream) ==> TakesEffectOn(row, world, sel, matches, name)
  }

  /** Nothing arrives that would have to go again. */
  ghost predicate ArrivalsMayStay(row: Row, world: World, sel: Selection) {
    forall name :: name in Arrivals(row, sel) ==> name in world.mapping.Keys || name in Normalize(world.upstream)
  }

  ghost predicate TakesEffect(row: Row, world: World, sel: Selection, matches: Matcher) {
    AddsTakeEffect(row, world, sel, matches) && ArrivalsMayStay(row, world, sel)
  }

  /** The ignore list written back ignores what it ignored before and the names just ignored, nothing else. */
  ghost predicate IgnoreTakesEffect(row: Row, world: World, sel: Selection, matches: Matcher) {
    forall name :: name in Normalize(world.upstream) ==> IgnoreTakesEffectOn(row, world, sel, matches, name)
  }

  ghost predicate IgnoreTakesEffectOn(row: Row, world: World, sel: Selection, matches: Matcher, name: string) {
    name !in Local(row) && name !in sel.add && name !in world.mapping.Values ==>
      (IgnoredBy(Normalize(NextIgnored(row.settings.ignored, sel)), name, matches)
       <==> IgnoredBy(Normalize(row.settings.ignored), name, matches) || name in sel.ignore)
  }

  ghost predicate NoPatterns(names: seq<string>) {
    forall name :: name in names ==> !IsPattern(name)
  }

  ghost function Adds(row: Row, world: World, matches: Matcher): set<string> {
    set name | name in Normalize(world.upstream) && Addable(row, world, matches, name)
  }

  lemma PendingAddKeeps(row: Row, world: World, matches: Matcher)
    ensures PendingAdd(GetModels(row), row.settings.ignored, world, matches)
      == Keep(Normalize(world.upstream), Adds(row, world, matches))
  {
    var names := Normalize(world.upstream);
    KeepCongruence(names, Adds(row, world, matches), set name | name in names
      && name !in Local(row) && name !in world.mapping.Values && !IgnoredBy(Normalize(row.settings.ignored), name, matches));
  }

  lemma RemainingAddKeeps(row: Row, world: World, matches: Matcher, sel: Selection)
    requires InStep(row, world, matches)
    requires Clean(sel.add) && Clean(sel.ignore)
    ensures Subtract(Normalize(row.settings.detected), sel.add + sel.ignore)
      == Keep(Normalize(world.upstream), Adds(row, world, matches) - Elems(sel.add) - Elems(sel.ignore))
  {
    var names, adds, detected := Normalize(world.upstream), Adds(row, world, matches), row.settings.detected;
    DetectionMeaning(row, world, matches);
    PendingAddKeeps(row, world, matches);
    var gone := Elems(Normalize(sel.add + sel.ignore));
    NormalizeConcat(sel.add, sel.ignore);
    MergeMeaning(sel.add, sel.ignore);
    NormalizeClean(sel.add);
    NormalizeClean(sel.ignore);
    KeepKeep(names, adds, Elems(detected) - gone);
    KeepMembers(names, adds);
    KeepCongruence(names, adds * (Elems(detected) - gone), adds - Elems(sel.add) - Elems(sel.ignore));
  }

  lemma RemainingAddMeaning(row: Row, world: World, matches: Matcher, sel: Selection)
    requires InStep(row, world, matches)
    requires Clean(sel.add) && Clean(sel.ignore)
    ensures forall name ::
      name in Subtract(Normalize(row.settings.detected), sel.add + sel.ignore)
      <==> Addable(row, world, matches, name) && name !in sel.add && name !in sel.ignore
  {
    var names, wanted := Normalize(world.upstream), Adds(row, world, matches) - Elems(sel.add) - Elems(sel.ignore);
    RemainingAddKeeps(row, world, matches, sel);
    KeepMembers(names, wanted);
    forall name
      ensures name in names && name in wanted <==> Addable(row, world, matches, name) && name !in sel.add && name !in sel.ignore
    {
      assert name in Adds(row, world, matches) <==> Addable(row, world, matches, name);
    }
  }

  /** The addition side of the protocol. */
  lemma AddsInStepIff(row: Row, world: World, matches: Matcher, sel: Selection, applied: Row)
    requires InStep(row, world, matches)
    requires Clean(sel.add) && Clean(sel.ignore)
    requires forall name :: name in sel.remove ==> Removable(row, world, name)
    requires Local(applied) == Drop(Local(row), Elems(sel.remove)) + Arrivals(row, sel)
    requires applied.settings.ignored == NextIgnored(row.settings.ignored, sel)
    requires applied.settings.detected == Subtract(Normalize(row.settings.detected), sel.add + sel.ignore)
    ensures applied.settings.detected == PendingAdd(GetModels(applied), applied.settings.ignored, world, matches)
      <==> AddsTakeEffect(row, world, sel, matches)
  {
    var names := Normalize(world.upstream);
    PendingAddKeeps(applied, world, matches);
    RemainingAddKeeps(row, world, matches, sel);
    var want, have := Adds(row, world, matches) - Elems(sel.add) - Elems(sel.ignore), Adds(applied, world, matches);
    KeepEqualIff(names, want, have);
    forall name | name in names
      ensures (name in want <==> name in have) <==> TakesEffectOn(row, world, sel, matches, name)
    {
      AddsInStepAt(row, world, matches, sel, applied, name);
    }
  }

  lemma AddsInStepAt(row: Row, world: World, matches: Matcher, sel: Selection, applied: Row, name: string)
    requires name in Normalize(world.upstream)
    requires forall name :: name in sel.remove ==> Removable(row, world, name)
    requires Local(applied) == Drop(Local(row), Elems(sel.remove)) + Arrivals(row, sel)
    requires applied.settings.ignored == NextIgnored(row.settings.ignored, sel)
    ensures var want := Adds(row, world, matches) - Elems(sel.add) - Elems(sel.ignore);
      (name in want <==> name in Adds(applied, world, matches)) <==> TakesEffectOn(row, world, sel, matches, name)
  {
    DropMembers(Local(row), Elems(sel.remove));
    assert name in Local(applied) <==> name in Local(row) || name in Arrivals(row, sel);
    assert name in Adds(row, world, matches) <==> Addable(row, world, matches, name);
    assert name in Adds(applied, world, matches) <==> Addable(applied, world, matches, name);
  }

  /** The removal side of the protocol. */
  lemma RemovesInStepIff(row: Row, world: World, matches: Matcher, sel: Selection, applied: Row)
    requires InStep(row, world, matches)
    requires Clean(sel.remove)
    requires Local(applied) == Drop(Local(row), Elems(sel.remove)) + Arrivals(row, sel)
    requires applied.settings.removed == Subtract(Normalize(row.settings.removed), sel.remove)
    ensures applied.settings.removed == PendingRemove(GetModels(applied), world) <==> ArrivalsMayStay(row, world, sel)
  {
    var next, arrivals := Local(applied), Arrivals(row, sel);
    var still := set name | name in next && name !in world.mapping.Keys && name !in Normalize(world.upstream);
    var kept := Drop(Local(row), Elems(sel.remove));
    RemainingRemoveKeeps(row, world, matches, sel, still);
    KeepConcat(kept, arrivals, still);
    KeepEqualIff(arrivals, still, {});
    KeepNone(arrivals);
    assert Keep(kept, still) + Keep(arrivals, still) == Keep(kept, still) <==> Keep(arrivals, still) == [];
  }

  lemma RemainingRemoveKeeps(row: Row, world: World, matches: Matcher, sel: Selection, still: set<string>)
    requires InStep(row, world, matches)
    requires Clean(sel.remove)
    requires forall name :: name in Drop(Local(row), Elems(sel.remove)) ==>
      (name in still <==> name !in world.mapping.Keys && name !in Normalize(world.upstream))
    ensures Subtract(Normalize(row.settings.removed), sel.remove) == Keep(Drop(Local(row), Elems(sel.remove)), still)
  {
    var local, names, gone := Local(row), Normalize(world.upstream), Elems(sel.remove);
    var removable := set name | name in local && name !in world.mapping.Keys && name !in names;
    DetectionMeaning(row, world, matches);
    NormalizeClean(sel.remove);
    assert row.settings.removed == Keep(local, removable);
    KeepKeep(local, removable, Elems(row.settings.removed) - gone);
    KeepKeep(local, Elems(local) - gone, still);
    KeepElems(local, removable);
    DropMembers(local, gone);
    KeepEqualIff(local, removable * (Elems(row.settings.removed) - gone), (Elems(local) - gone) * still);
  }

  /**
   * After applying any selection, a detection against the same upstream finds exactly the stored remaining
   * lists iff the selection takes effect: on additions by what the joined list splits into and by the new
   * ignore list, on removals by no piece that upstream lacks.
   */
  lemma ApplyStaysInStepIff(
    row: Row, world: World, matches: Matcher, add: seq<string>, ignore: seq<string>, remove: seq<string>, now: int)
    requires InStep(row, world, matches)
    ensures InStep(Applied(row, add, ignore, remove, now), world, matches)
      <==> TakesEffect(row, world, Selected(row, add, ignore, remove), matches)
  {
    var sel, applied := Selected(row, add, ignore, remove), Applied(row, add, ignore, remove, now);
    SelectionMeaning(row, world, matches, add, ignore, remove);
    AppliedNames(row, world, matches, add, ignore, remove, now);
    AddsInStepIff(row, world, matches, sel, applied);
    RemovesInStepIff(row, world, matches, sel, applied);
  }

  /** Without a comma in an added name, a selection takes effect iff the new ignore list does. */
  lemma WithoutCommas(row: Row, world: World, matches: Matcher, sel: Selection)
    requires Clean(sel.add) && Separable(sel.add, ',')
    requires forall name :: name in sel.add ==> Addable(row, world, matches, name)
    ensures TakesEffect(row, world, sel, matches) <==> IgnoreTakesEffect(row, world, sel, matches)
  {
    PlainArrivals(row, world, matches, sel);
    forall name | name in Normalize(world.upstream)
      ensures TakesEffectOn(row, world, sel, matches, name) <==> IgnoreTakesEffectOn(row, world, sel, matches, name)
    {
    }
  }

  lemma NextIgnoredMeaning(ignored: seq<string>, sel: Selection)
    requires Clean(sel.add) && Clean(sel.ignore)
    ensures Clean(NextIgnored(ignored, sel)) && Normalize(NextIgnored(ignored, sel)) == NextIgnored(ignored, sel)
    ensures forall name ::
      name in NextIgnored(ignored, sel) <==> (name in Normalize(ignored) || name in sel.ignore) && name !in sel.add
  {
    var merged := Merge(ignored, sel.ignore);
    MergeMeaning(ignored, sel.ignore);
    NormalizeClean(sel.ignore);
    NormalizeClean(sel.add);
    NormalizeClean(merged);
    SubtractMeaning(merged, sel.add);
    NormalizeClean(NextIgnored(ignored, sel));
  }

  lemma IgnoredByMembers(ignored: seq<string>, name: string, matches: Matcher)
    ensures IgnoredBy(ignored, name, matches) <==> exists entry :: entry in ignored && Covers(entry, name, matches)
  {
    if i :| 0 <= i < |ignored| && Covers(ignored[i], name, matches) {
      assert ignored[i] in ignored;
    }
  }

  /** If no selected name looks like a pattern, the ignore list takes effect as meant. */
  lemma LiteralNamesTakeEffect(row: Row, world: World, sel: Selection, matches: Matcher)
    requires Clean(sel.add) && Clean(sel.ignore)
    requires NoPatterns(sel.add) && NoPatterns(sel.ignore)
    ensures IgnoreTakesEffect(row, world, sel, matches)
  {
    var ignored, next := Normalize(row.settings.ignored), NextIgnored(row.settings.ignored, sel);
    NextIgnoredMeaning(row.settings.ignored, sel);
    forall name | name in Normalize(world.upstream) && name !in sel.add
      ensures IgnoredBy(next, name, matches) <==> IgnoredBy(ignored, name, matches) || name in sel.ignore
    {
      IgnoredByMembers(next, name, matches);
      IgnoredByMembers(ignored, name, matches);
      if name in sel.ignore {
        assert name in next && Covers(name, name, matches);
      }
      if entry :| entry in ignored && Covers(entry, name, matches) {
        assert entry in next;
      }
    }
  }

  /** An added name that holds a comma is stored in pieces, so the next detection offers it again. */
  lemma CommaNameComesBack(
    row: Row, world: World, matches: Matcher, add: seq<string>, ignore: seq<string>, remove: seq<string>, now: int, name: string)
    requires InStep(row, world, matches)
    requires var sel := Selected(row, add, ignore, remove); name in sel.add && NoPatterns(sel.add) && NoPatterns(sel.ignore)
    requires ',' in name
    ensures var applied := Applied(row, add, ignore, remove, now);
      && name in PendingAdd(GetModels(applied), applied.settings.ignored, world, matches)
      && name !in applied.settings.detected
  {
    var sel, applied := Selected(row, add, ignore, remove), Applied(row, add, ignore, remove, now);
    SelectionMeaning(row, world, matches, add, ignore, remove);
    DetectionMeaning(row, world, matches);
    DetectionMeaning(applied, world, matches);
    LocalNamesHaveNoComma(applied);
    NextIgnoredMeaning(row.settings.ignored, sel);
    var next := applied.settings.ignored;
    IgnoredByMembers(next, name, matches);
    IgnoredByMembers(Normalize(row.settings.ignored), name, matches);
    assert name !in Local(applied);
    RemainingAddMeaning(row, world, matches, sel);
  }

  /**
   * The protocol law: with no pattern-like name among the selected ones, a detection after the
   * application finds exactly the stored remaining lists iff no added name holds a comma.
   */
  lemma ApplyStaysInStepIffNoComma(
    row: Row, world: World, matches: Matcher, add: seq<string>, ignore: seq<string>, remove: seq<string>, now: int)
    requires InStep(row, world, matches)
    requires var sel := Selected(row, add, ignore, remove); NoPatterns(sel.add) && NoPatterns(sel.ignore)
    ensures InStep(Applied(row, add, ignore, remove, now), world, matches)
      <==> Separable(Selected(row, add, ignore, remove).add, ',')
  {
    var sel := Selected(row, add, ignore, remove);
    SelectionMeaning(row, world, matches, add, ignore, remove);
    if Separable(sel.add, ',') {
      LiteralNamesTakeEffect(row, world, sel, matches);
      WithoutCommas(row, world, matches, sel);
      ApplyStaysInStepIff(row, world, matches, add, ignore, remove, now);
    } else {
      var i :| 0 <= i < |sel.add| && ',' in sel.add[i];
      CommaNameComesBack(row, world, matches, add, ignore, remove, now, sel.add[i]);
    }
  }

  /**
   * An ignored name that looks like a pattern is read back as a pattern; unless some pattern happens to
   * match it, the next detection offers it again although it is not among the stored remaining names.
   */
  lemma IgnoredPatternComesBack(
    row: Row, world: World, matches: Matcher, add: seq<string>, ignore: seq<string>, remove: seq<string>, now: int, name: string)
    requires InStep(row, world, matches)
    requires var sel := Selected(row, add, ignore, remove);
      && Separable(sel.add, ',')
      && name in sel.ignore && name !in sel.add && IsPattern(name)
      && forall entry :: entry in sel.ignore && IsPattern(entry) ==> !Covers(entry, name, matches)
    ensures !InStep(Applied(row, add, ignore, remove, now), world, matches)
  {
    var sel := Selected(row, add, ignore, remove);
    SelectionMeaning(row, world, matches, add, ignore, remove);
    ApplyStaysInStepIff(row, world, matches, add, ignore, remove, now);
    WithoutCommas(row, world, matches, sel);
    NextIgnoredMeaning(row.settings.ignored, sel);
    IgnoredByMembers(NextIgnored(row.settings.ignored, sel), name, matches);
    IgnoredByMembers(Normalize(row.settings.ignored), name, matches);
    assert !IgnoredBy(NextIgnored(row.settings.ignored, sel), name, matches);
    assert !IgnoreTakesEffectOn(row, world, sel, matches, name);
  }

  /** Under which names a selection leaves the local list. */
  lemma AppliedNames(
    row: Row, world: World, matches: Matcher, add: seq<string>, ignore: seq<string>, remove: seq<string>, now: int)
    requires InStep(row, world, matches)
    ensures var sel := Selected(row, add, ignore, remove);
      Local(Applied(row, add, ignore, remove, now)) == Drop(Local(row), Elems(sel.remove)) + Arrivals(row, sel)
  {
    var sel := Selected(row, add, ignore, remove);
    SelectionMeaning(row, world, matches, add, ignore, remove);
    NextNames(row, world, matches, sel);
    NextNamesReadBack(row, world, matches, sel, ApplySelected(Local(row), sel.add, sel.remove), Applied(row, add, ignore, remove, now));
  }

  /** What a selection makes of each name that was pending for addition; adding wins over ignoring. */
  lemma EveryPendingNameSettled(
    row: Row, world: World, matches: Matcher, add: seq<string>, ignore: seq<string>, remove: seq<string>, now: int, name: string)
    requires InStep(row, world, matches) && name in row.settings.detected
    ensures var applied := Applied(row, add, ignore, remove, now);
      && (name in Local(applied) <==> name in Arrivals(row, Selected(row, add, ignore, remove)))
      && (Separable(Selected(row, add, ignore, remove).add, ',') ==> (name in Local(applied) <==> name in Normalize(add)))
      && (name in applied.settings.ignored
          <==> name !in Normalize(add) && (name in Normalize(ignore) || name in Normalize(row.settings.ignored)))
      && (name in applied.settings.detected <==> name !in Normalize(add) && name !in Normalize(ignore))
  {
    var sel := Selected(row, add, ignore, remove);
    DetectionMeaning(row, world, matches);
    SelectionMeaning(row, world, matches, add, ignore, remove);
    AppliedNames(row, world, matches, add, ignore, remove, now);
    if Separable(sel.add, ',') {
      PlainArrivals(row, world, matches, sel);
    }
    DropMembers(Local(row), Elems(sel.remove));
    NextIgnoredMeaning(row.settings.ignored, sel);
    RemainingAddMeaning(row, world, matches, sel);
  }

  /** Selecting everything that is pending selects just that. */
  lemma SelectingAll(row: Row, world: World, matches: Matcher)
    requires InStep(row, world, matches)
    ensures var sel := Selected(row, row.settings.detected, [], row.settings.removed);
      && (forall name :: name in sel.add <==> name in row.settings.detected)
      && sel.ignore == []
      && (forall name :: name in sel.remove <==> name in row.settings.removed)
  {
    var add, remove := row.settings.detected, row.settings.removed;
    DetectionMeaning(row, world, matches);
    SelectionMeaning(row, world, matches, add, [], remove);
    NonEmptyHasMember(Selected(row, add, [], remove).ignore);
  }

  /** Applying everything that is pending leaves nothing stored as pending. */
  lemma ApplyAllLeavesNothing(row: Row, world: World, matches: Matcher, now: int)
    requires InStep(row, world, matches)
    ensures var applied := Applied(row, row.settings.detected, [], row.settings.removed, now);
      applied.settings.detected == [] && applied.settings.removed == []
  {
    var add, remove := row.settings.detected, row.settings.removed;
    var sel, applied := Selected(row, add, [], remove), Applied(row, add, [], remove, now);
    DetectionMeaning(row, world, matches);
    SelectionMeaning(row, world, matches, add, [], remove);
    RemainingAddMeaning(row, world, matches, sel);
    SubtractMeaning(Normalize(remove), sel.remove);
    NormalizeClean(sel.remove);
    NonEmptyHasMember(applied.settings.detected);
    NonEmptyHasMember(applied.settings.removed);
  }

  /**
   * After applying everything the next detection finds nothing iff the selection of everything takes effect;
   * with no pattern among the additions, iff none of them held a comma.
   */
  lemma ApplyAllSettlesIff(row: Row, world: World, matches: Matcher, now: int)
    requires InStep(row, world, matches)
    ensures var all := Selected(row, row.settings.detected, [], row.settings.removed);
      NothingPending(Applied(row, row.settings.detected, [], row.settings.removed, now), world, matches)
      <==> TakesEffect(row, world, all, matches)
    ensures NoPatterns(row.settings.detected) ==>
      (NothingPending(Applied(row, row.settings.detected, [], row.settings.removed, now), world, matches)
       <==> Separable(row.settings.detected, ','))
  {
    var sel := Selected(row, row.settings.detected, [], row.settings.removed);
    SelectingAll(row, world, matches);
    ApplyAllLeavesNothing(row, world, matches, now);
    ApplyStaysInStepIff(row, world, matches, row.settings.detected, [], row.settings.removed, now);
    if NoPatterns(row.settings.detected) {
      ApplyStaysInStepIffNoComma(row, world, matches, row.settings.detected, [], row.settings.removed, now);
      SeparableMembers(sel.add, row.settings.detected, ',');
    }
  }

  /** A detection would find nothing. */
  ghost predicate NothingPending(row: Row, world: World, matches: Matcher) {
    && PendingAdd(GetModels(row), row.settings.ignored, world, matches) == []
    && PendingRemove(GetModels(row), world) == []
  }

  lemma SeparableMembers(a: seq<string>, b: seq<string>, sep: char)
    requires forall x :: x in a <==> x in b
    ensures Separable(a, sep) <==> Separable(b, sep)
  {
    assert Separable(a, sep) <==> forall x :: x in a ==> sep !in x;
    assert Separable(b, sep) <==> forall x :: x in b ==> sep !in x;
  }

  /** An automatic application counts every name it found as added. */
  lemma AutoAddedIsFound(row: Row, world: World, matches: Matcher)
    ensures AutoAdded(row, world, matches) == |PendingAdd(GetModels(row), row.settings.ignored, world, matches)|
  {
    var local, found := Local(row), PendingAdd(GetModels(row), row.settings.ignored, world, matches);
    DetectionMeaning(row, world, matches);
    NormalizeMeaning(GetModels(row));
    NormalizeClean(local);
    DropNone(found, Elems(local));
  }

  /** What detections and applications leave alone, and the time they note. */
  lemma UntouchedFields(
    row: Row, world: World, matches: Matcher, add: seq<string>, ignore: seq<string>, remove: seq<string>, now: int)
    ensures var found := Detected(row, world, now, matches);
      found.models == row.models && found.settings.ignored == row.settings.ignored
      && found.settings.autoSync == row.settings.autoSync && found.settings.lastCheck == now
    ensures var synced := AutoSynced(row, world, now, matches);
      synced.settings.ignored == row.settings.ignored && synced.settings.detected == []
      && synced.settings.autoSync == row.settings.autoSync && synced.settings.lastCheck == now
    ensures var applied := Applied(row, add, ignore, remove, now);
      applied.settings.autoSync == row.settings.autoSync && applied.settings.lastCheck == now
  {
  }

  // ---- whole runs ----

  datatype Request = Request(add: seq<string>, ignore: seq<string>, remove: seq<string>, now: int)

  function ApplyInTurn(row: Row, requests: seq<Request>): Row {
    if requests == [] then row
    else
      var r := requests[|requests| - 1];
      Applied(ApplyInTurn(row, requests[..|requests| - 1]), r.add, r.ignore, r.remove, r.now)
  }

  lemma PlainStep(row: Row, world: World, matches: Matcher, r: Request)
    requires InStep(row, world, matches)
    requires forall name :: name in Normalize(world.upstream) ==> ',' !in name && !IsPattern(name)
    ensures InStep(Applied(row, r.add, r.ignore, r.remove, r.now), world, matches)
  {
    SelectionMeaning(row, world, matches, r.add, r.ignore, r.remove);
    var sel := Selected(row, r.add, r.ignore, r.remove);
    assert forall i :: 0 <= i < |sel.add| ==> sel.add[i] in sel.add;
    ApplyStaysInStepIffNoComma(row, world, matches, r.add, r.ignore, r.remove, r.now);
  }

  /**
   * Against an upstream whose names hold no comma and look like no pattern, the stored lists stay equal to
   * a new detection through every run of selections that follows a detection.
   */
  lemma {:induction false} EveryRunStaysInStep(row: Row, world: World, matches: Matcher, now: int, requests: seq<Request>)
    requires forall name :: name in Normalize(world.upstream) ==> ',' !in name && !IsPattern(name)
    ensures InStep(ApplyInTurn(Detected(row, world, now, matches), requests), world, matches)
  {
    if requests != [] {
      var front := requests[..|requests| - 1];
      EveryRunStaysInStep(row, world, matches, now, front);
      PlainStep(ApplyInTurn(Detected(row, world, now, matches), front), world, matches, requests[|requests| - 1]);
    }
  }

  ghost predicate InStepAfter(row: Row, world: World, matches: Matcher, requests: seq<Request>, n: nat)
    requires n <= |requests|
  {
    InStep(ApplyInTurn(row, requests[..n]), world, matches)
  }

  ghost predicate TakesEffectAt(row: Row, world: World, matches: Matcher, requests: seq<Request>, n: nat)
    requires n < |requests|
  {
    var before, r := ApplyInTurn(row, requests[..n]), requests[n];
    TakesEffect(before, world, Selected(before, r.add, r.ignore, r.remove), matches)
  }

  lemma StepStaysInStepIff(row: Row, world: World, matches: Matcher, requests: seq<Request>, n: nat)
    requires n < |requests| && InStepAfter(row, world, matches, requests, n)
    ensures InStepAfter(row, world, matches, requests, n + 1) <==> TakesEffectAt(row, world, matches, requests, n)
  {
    var before, r := ApplyInTurn(row, requests[..n]), requests[n];
    assert requests[..n + 1][..n] == requests[..n];
    ApplyStaysInStepIff(before, world, matches, r.add, r.ignore, r.remove, r.now);
  }

  lemma {:induction false} EffectiveRunStaysInStep(
    row: Row, world: World, matches: Matcher, requests: seq<Request>, n: nat)
    requires InStep(row, world, matches) && n <= |requests|
    requires forall k :: 0 <= k < n ==> TakesEffectAt(row, world, matches, requests, k)
    ensures InStepAfter(row, world, matches, requests, n)
  {
    if n > 0 {
      EffectiveRunStaysInStep(row, world, matches, requests, n - 1);
      StepStaysInStepIff(row, world, matches, requests, n - 1);
    }
  }

  /**
   * Whatever the upstream names are: the stored lists equal a new detection all along a run of selections
   * iff each selection takes effect on the row it finds.
   */
  lemma EveryRunStaysInStepIff(row: Row, world: World, matches: Matcher, requests: seq<Request>)
    requires InStep(row, world, matches)
    ensures (forall n :: 0 <= n <= |requests| ==> InStepAfter(row, world, matches, requests, n))
      <==> (forall n :: 0 <= n < |requests| ==> TakesEffectAt(row, world, matches, requests, n))
  {
    if forall n :: 0 <= n <= |requests| ==> InStepAfter(row, world, matches, requests, n) {
      forall n | 0 <= n < |requests| ensures TakesEffectAt(row, world, matches, requests, n) {
        assert InStepAfter(row, world, matches, requests, n) && InStepAfter(row, world, matches, requests, n + 1);
        StepStaysInStepIff(row, world, matches, requests, n);
      }
    } else if forall n :: 0 <= n < |requests| ==> TakesEffectAt(row, world, matches, requests, n) {
      forall n | 0 <= n <= |requests| ensures InStepAfter(row, world, matches, requests, n) {
        EffectiveRunStaysInStep(row, world, matches, requests, n);
      }
    }
  }

  lemma AutoSyncedNames(row: Row, world: World, now: int, matches: Matcher)
    requires Separable(Detected(row, world, now, matches).settings.detected, ',')
    ensures Local(AutoSynced(row, world, now, matches))
      == Local(row) + Detected(row, world, now, matches).settings.detected
  {
    var local, adding := Local(row), Detected(row, world, now, matches).settings.detected;
    DetectionMeaning(row, world, matches);
    NormalizeMeaning(GetModels(row));
    NormalizeClean(local);
    KeepAll(adding, Elems(adding) - Elems(local));
    var merged := Merge(local, adding);
    MergeMeaning(local, adding);
    if adding == [] {
      assert local + adding == local;
    } else {
      LocalNamesHaveNoComma(row);
      ReadListRoundTrip(merged, ',');
      NormalizeClean(merged);
    }
  }

  lemma AutoSyncedRemoves(row: Row, world: World, now: int, matches: Matcher)
    requires Separable(Detected(row, world, now, matches).settings.detected, ',')
    ensures PendingRemove(GetModels(AutoSynced(row, world, now, matches)), world) == PendingRemove(GetModels(row), world)
  {
    var synced, adding := AutoSynced(row, world, now, matches), Detected(row, world, now, matches).settings.detected;
    AutoSyncedNames(row, world, now, matches);
    DetectionMeaning(row, world, matches);
    var names, local, both := Normalize(world.upstream), Local(row), Local(synced);
    var removes := set name | name in both && name !in world.mapping.Keys && name !in names;
    KeepConcat(local, adding, removes);
    KeepEqualIff(adding, removes, {});
    KeepNone(adding);
    KeepCongruence(local, removes, set name | name in local && name !in world.mapping.Keys && name !in names);
  }

  /** Automatic application settles the channel exactly when no detected name holds a comma. */
  lemma AutoSyncSettlesIff(row: Row, world: World, now: int, matches: Matcher)
    ensures InStep(AutoSynced(row, world, now, matches), world, matches)
      <==> Separable(Detected(row, world, now, matches).settings.detected, ',')
  {
    var synced, adding := AutoSynced(row, world, now, matches), Detected(row, world, now, matches).settings.detected;
    DetectionMeaning(row, world, matches);
    DetectionMeaning(synced, world, matches);
    if Separable(adding, ',') {
      AutoSyncedRemoves(row, world, now, matches);
      AutoSyncedNames(row, world, now, matches);
      NonEmptyHasMember(PendingAdd(GetModels(synced), synced.settings.ignored, world, matches));
    } else {
      var i :| 0 <= i < |adding| && ',' in adding[i];
      LocalNamesHaveNoComma(synced);
      assert adding[i] in adding;
      assert Addable(synced, world, matches, adding[i]);
    }
  }

  // ---- names on which the protocol fails ----

  /** A channel without models whose upstream offers one name, after a detection. */
  function NewChannel(name: string, now: int, matches: Matcher): Row {
    Detected(Row("", Settings([], [], [], 0, false)), World([name], map[]), now, matches)
  }

  lemma NewChannelPending(name: string, now: int, matches: Matcher)
    requires Clean([name])
    ensures var row := NewChannel(name, now, matches);
      InStep(row, World([name], map[]), matches) && row.settings.detected == [name] && row.settings.ignored == []
  {
    var row, world := NewChannel(name, now, matches), World([name], map[]);
    NormalizeClean([name]);
    PendingAddKeeps(row, world, matches);
    assert Local(row) == [] && Normalize(row.settings.ignored) == [];
    assert Addable(row, world, matches, name);
    KeepAll([name], Adds(row, world, matches));
  }

  lemma PickedOne(name: string, now: int, matches: Matcher)
    requires Clean([name])
    ensures Selected(NewChannel(name, now, matches), [name], [], []) == Selection([name], [], [])
    ensures Selected(NewChannel(name, now, matches), [], [name], []) == Selection([], [name], [])
  {
    NewChannelPending(name, now, matches);
    NormalizeClean([name]);
    KeepAll([name], Elems([name]));
  }

  /** Adding the one upstream name, which holds a comma, leaves a new channel out of step. */
  lemma CommaFails(name: string, now: int, later: int, matches: Matcher)
    requires Clean([name]) && ',' in name && !IsPattern(name)
    ensures var row, world := NewChannel(name, now, matches), World([name], map[]);
      && InStep(row, world, matches) && row.settings.detected == [name]
      && !InStep(Applied(row, [name], [], [], later), world, matches)
  {
    NewChannelPending(name, now, matches);
    PickedOne(name, now, matches);
    CommaNameComesBack(NewChannel(name, now, matches), World([name], map[]), matches, [name], [], [], later, name);
  }

  /** Ignoring the one upstream name, which is a pattern that does not match itself, is of no avail. */
  lemma PatternFails(name: string, now: int, later: int, matches: Matcher)
    requires Clean([name]) && IsPattern(name) && !Covers(name, name, matches)
    ensures var row, world := NewChannel(name, now, matches), World([name], map[]);
      && InStep(row, world, matches) && row.settings.detected == [name]
      && !InStep(Applied(row, [], [name], [], later), world, matches)
  {
    NewChannelPending(name, now, matches);
    PickedOne(name, now, matches);
    IgnoredPatternComesBack(NewChannel(name, now, matches), World([name], map[]), matches, [], [name], [], later, name);
  }

  /** One such name is "a,b". */
  lemma CommaName()
    ensures Clean(["a,b"]) && ',' in "a,b" && !IsPattern("a,b")
  {
    assert "a,b"[1] == ',' && "a,b"[0] != REGEX_PREFIX[0];
  }

  /** Another, as the expression ^x does not match it, is "regex:^x". */
  lemma PatternName(matches: Matcher)
    requires !matches("^x", "regex:^x")
    ensures Clean(["regex:^x"]) && IsPattern("regex:^x") && !Covers("regex:^x", "regex:^x", matches)
  {
    var name := "regex:^x";
    assert name[..|REGEX_PREFIX|] == REGEX_PREFIX;
    assert name[|REGEX_PREFIX|..] == "^x";
    TrimMeaning("^x", WHITESPACE);
  }
}
