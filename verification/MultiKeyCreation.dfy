/** Where the alignment of a multi-key channel comes from, and inputs on which it goes wrong. */
module MultiKeyCreation {
  import opened MultiKeyRefinement
  import opened MultiKeySpec
  import opened Options
  import opened Strings

  /** Every line that is not empty makes one key, its trimmed text, in order. */
  lemma {:induction false} CleanLinesMeaning(a: seq<string>, line: string, b: seq<string>)
    ensures CleanLines(a + [line] + b) == CleanLines(a) + (if line == "" then [] else [TrimSpace(line)]) + CleanLines(b)
  {
    var all := a + [line] + b;
    if b == [] {
      assert all == a + [line] && all[..|all| - 1] == a;
    } else {
      var n := |b| - 1;
      CleanLinesMeaning(a, line, b[..n]);
      assert all[..|all| - 1] == a + [line] + b[..n] && all[|all| - 1] == b[n];
    }
  }

  lemma {:induction false} CleanLinesSeparable(lines: seq<string>)
    requires Separable(lines, '\n')
    ensures Separable(CleanLines(lines), '\n')
  {
    if lines != [] {
      CleanLinesSeparable(lines[..|lines| - 1]);
      TrimMeaning(lines[|lines| - 1], WHITESPACE);
    }
  }

  /** A field without clean ends reads back as fewer keys than were joined. */
  lemma FewerKeysReadBack(keys: seq<string>)
    requires Separable(keys, '\n') && keys != [] && !CleanEnds(keys)
    ensures |ReadList(Join(keys, '\n'), '\n')| < |keys|
  {
    var field := Join(keys, '\n');
    if field != "" {
      JoinEnds(keys, '\n');
      TrimMeaning(field, {'\n'});
      SplitAfterJoin(keys, '\n');
      TrimDropsParts(field, '\n');
    }
  }

  lemma CreatedReadsBackIff(keys: seq<string>)
    requires Separable(keys, '\n')
    ensures |ReadList(Join(keys, '\n'), '\n')| == |keys| <==> keys == [] || (keys[0] != "" && keys[|keys| - 1] != "")
  {
    if keys != [] && !CleanEnds(keys) {
      FewerKeysReadBack(keys);
    } else {
      ReadListRoundTrip(keys, '\n');
    }
  }

  /** Creation never counts too few keys. */
  lemma CreatedCounted(text: string)
    ensures Counted(Created(text))
  {
    var keys := CleanLines(Split(text, '\n'));
    SplitParts(text, '\n');
    CleanLinesSeparable(Split(text, '\n'));
    CreatedReadsBackIff(keys);
    if keys != [] && !CleanEnds(keys) {
      FewerKeysReadBack(keys);
    }
  }

  lemma UnmarkedAligned(field: string, size: nat)
    ensures Aligned(State(field, size, NO_MARKS)) <==> size == |ReadList(field, '\n')|
  {
  }

  lemma JoinedAlignedIff(keys: seq<string>)
    requires Separable(keys, '\n')
    ensures Aligned(State(Join(keys, '\n'), |keys|, NO_MARKS)) <==> keys == [] || (keys[0] != "" && keys[|keys| - 1] != "")
  {
    CreatedReadsBackIff(keys);
    UnmarkedAligned(Join(keys, '\n'), |keys|);
  }

  /** The size of a new channel is its key count iff neither the first nor the last line kept is all spaces. */
  lemma CreatedAlignedIff(text: string)
    ensures var keys := CleanLines(Split(text, '\n'));
      Aligned(Created(text)) <==> keys == [] || (keys[0] != "" && keys[|keys| - 1] != "")
  {
    SplitParts(text, '\n');
    CleanLinesSeparable(Split(text, '\n'));
    JoinedAlignedIff(CleanLines(Split(text, '\n')));
  }

  // ---- inputs on which the maps stop following the keys ----

  lemma JoinTwo(a: string, b: string)
    ensures Join([a, b], '\n') == a + "\n" + b
  {
    assert [a, b][1..] == [b];
  }

  lemma JoinThree(a: string, b: string, c: string)
    ensures Join([a, b, c], '\n') == a + "\n" + b + "\n" + c
  {
    assert [a, b, c][1..] == [b, c];
    JoinTwo(b, c);
    assert a + "\n" + (b + "\n" + c) == a + "\n" + b + "\n" + c;
  }

  lemma CleanTwo(a: string, b: string)
    requires a != "" && b != ""
    ensures CleanLines([a, b]) == [TrimSpace(a), TrimSpace(b)]
  {
    assert [a, b][..1] == [a] && [a][..0] == [];
    assert CleanLines([a]) == [TrimSpace(a)];
  }

  /** What the field "\n" + b stands for. */
  lemma LeadingNewline(b: string)
    requires b != "" && '\n' !in b
    ensures ReadList("\n" + b, '\n') == [b]
  {
    var field := "\n" + b;
    assert field[1..] == b && field[0] == '\n';
    assert TrimLeft(field, {'\n'}) == TrimLeft(b, {'\n'}) == b;
    SplitAfterJoin([b], '\n');
  }

  /** Creation counts a first line of one space as a key, and then reads back one key less. */
  lemma MisalignedCreation(key: string)
    requires key != "" && '\n' !in key && TrimSpace(key) == key
    ensures var state := Created(" " + "\n" + key);
      state.size == 2 && Keys(state) == [key] && !Aligned(state)
  {
    JoinTwo(" ", key);
    SplitAfterJoin([" ", key], '\n');
    CleanTwo(" ", key);
    BlankTrimmed();
    JoinTwo("", key);
    assert "" + "\n" + key == "\n" + key;
    LeadingNewline(key);
  }

  lemma CleanThree(a: string, b: string, c: string)
    requires a != "" && b != "" && c != ""
    ensures CleanLines([a, b, c]) == [TrimSpace(a), TrimSpace(b), TrimSpace(c)]
  {
    assert [a, b, c][..2] == [a, b];
    CleanTwo(a, b);
  }

  /** A line of one space between two others is stored as a blank key. */
  lemma BlankInTheMiddle(a: string, b: string)
    requires a != "" && '\n' !in a && TrimSpace(a) == a
    requires b != "" && '\n' !in b && TrimSpace(b) == b
    ensures Created(a + "\n" + " " + "\n" + b) == State(Join([a, "", b], '\n'), 3, NO_MARKS)
  {
    JoinThree(a, " ", b);
    SplitAfterJoin([a, " ", b], '\n');
    CleanThree(a, " ", b);
    BlankTrimmed();
  }

  lemma BlankTrimmed()
    ensures TrimSpace(" ") == ""
  {
  }

  /** Deleting the first of three keys takes a blank second one along. */
  lemma BlankKeyGoesToo(a: string, b: string)
    requires a != "" && b != "" && '\n' !in a && '\n' !in b
    ensures var state := State(Join([a, "", b], '\n'), 3, NO_MARKS);
      && Aligned(state) && Keys(state) == [a, "", b] && !Fits(Records(state), DeleteKey(0))
      && Keys(KeyDeleted(state, 0)) == [b]
  {
    var keys := [a, "", b];
    var state := State(Join(keys, '\n'), 3, NO_MARKS);
    CreatedReadsBackIff(keys);
    ReadListRoundTrip(keys, '\n');
    UnmarkedAligned(state.field, 3);
    KeysOfRecords(state);
    assert BlankMovesToAnEnd(keys, 0);
    FirstKeyDeleted(state);
    assert keys[1..] == ["", b];
    JoinTwo("", b);
    assert "" + "\n" + b == "\n" + b;
    LeadingNewline(b);
  }

  lemma FirstKeyDeleted(state: State)
    requires Aligned(state) && |Keys(state)| > 1
    ensures Join(Keys(state)[1..], '\n') != "" ==>
      KeyDeleted(state, 0).field == Join(Keys(state)[1..], '\n')
  {
    var keys := Keys(state);
    PickAllButOne(keys, state.marks, 0);
    assert keys[..0] + keys[1..] == keys[1..];
  }

  /** A channel of one automatically disabled key: deleting the disabled keys enables it. */
  lemma DisabledKeyComesBack(key: string, time: int, reason: string)
    requires key != "" && '\n' !in key
    ensures var state := State(key, 1, Marks(map[0 := AUTO_DISABLED], map[0 := time], map[0 := reason]));
      && Aligned(state) && Records(state) == [Record(key, AUTO_DISABLED, Some(time), Some(reason))]
      && !Fits(Records(state), DeleteDisabled)
      && Records(DisabledDeleted(state)) == [Record(key, ENABLED, None, None)]
  {
    var marks := Marks(map[0 := AUTO_DISABLED], map[0 := time], map[0 := reason]);
    var state := State(key, 1, marks);
    ReadListRoundTrip([key], '\n');
    assert Join([key], '\n') == key;
    assert Keys(state) == [key];
    OneKeyRecords(state, key);
    DeletingAllDisabledEnablesThem(state);
    var records := [Record(key, AUTO_DISABLED, Some(time), Some(reason))];
    assert records[0].status == AUTO_DISABLED;
    OnlyMisfit(records, DeleteDisabled);
  }

  lemma OneKeyRecords(state: State, key: string)
    requires Keys(state) == [key]
    ensures Records(state) == [RecordAt(key, state.marks, 0)]
  {
  }
}
