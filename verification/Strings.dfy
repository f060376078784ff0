/** The parts of Go's `strings` package that the list fields of a channel rely on. */
module Strings {

  /** The code points for which Go's unicode.IsSpace holds. */
  const WHITESPACE: set<char> := {
    '\t', '\n', '\U{000B}', '\U{000C}', '\r', ' ', '\U{0085}', '\U{00A0}', '\U{1680}',
    '\U{2000}', '\U{2001}', '\U{2002}', '\U{2003}', '\U{2004}', '\U{2005}', '\U{2006}',
    '\U{2007}', '\U{2008}', '\U{2009}', '\U{200A}', '\U{2028}', '\U{2029}', '\U{202F}',
    '\U{205F}', '\U{3000}'
  }

  function TrimLeft(s: string, cutset: set<char>): string {
    if s != "" && s[0] in cutset then TrimLeft(s[1..], cutset) else s
  }

  function TrimRight(s: string, cutset: set<char>): string {
    if s != "" && s[|s| - 1] in cutset then TrimRight(s[..|s| - 1], cutset) else s
  }

  /** strings.Trim */
  function Trim(s: string, cutset: set<char>): string {
    TrimRight(TrimLeft(s, cutset), cutset)
  }

  /** strings.TrimSpace */
  function TrimSpace(s: string): string {
    Trim(s, WHITESPACE)
  }

  predicate Trimmed(s: string, cutset: set<char>) {
    s == "" || (s[0] !in cutset && s[|s| - 1] !in cutset)
  }

  lemma {:induction false} TrimLeftTrimmed(s: string, cutset: set<char>)
    ensures var r := TrimLeft(s, cutset); r == "" || r[0] !in cutset
    ensures |TrimLeft(s, cutset)| <= |s|
    ensures forall c :: c in TrimLeft(s, cutset) ==> c in s
  {
    if s != "" && s[0] in cutset {
      TrimLeftTrimmed(s[1..], cutset);
    }
  }

  lemma {:induction false} TrimRightTrimmed(s: string, cutset: set<char>)
    ensures var r := TrimRight(s, cutset); r == "" || r[|r| - 1] !in cutset
    ensures TrimRight(s, cutset) <= s
  {
    if s != "" && s[|s| - 1] in cutset {
      TrimRightTrimmed(s[..|s| - 1], cutset);
    }
  }

  /** A trimmed string has no cut character at either end, and only such strings are left alone. */
  lemma TrimMeaning(s: string, cutset: set<char>)
    ensures Trimmed(Trim(s, cutset), cutset)
    ensures Trim(s, cutset) == s <==> Trimmed(s, cutset)
    ensures |Trim(s, cutset)| <= |s|
    ensures forall c :: c in Trim(s, cutset) ==> c in s
  {
    TrimLeftTrimmed(s, cutset);
    TrimRightTrimmed(TrimLeft(s, cutset), cutset);
    assert forall c :: c in Trim(s, cutset) ==> c in TrimLeft(s, cutset);
  }

  lemma {:induction false} TrimLeftSplits(s: string, cutset: set<char>) returns (cut: string)
    ensures s == cut + TrimLeft(s, cutset) && forall c :: c in cut ==> c in cutset
  {
    if s != "" && s[0] in cutset {
      var rest := TrimLeftSplits(s[1..], cutset);
      cut := [s[0]] + rest;
    } else {
      cut := "";
    }
  }

  lemma {:induction false} TrimRightSplits(s: string, cutset: set<char>) returns (cut: string)
    ensures s == TrimRight(s, cutset) + cut && forall c :: c in cut ==> c in cutset
  {
    if s != "" && s[|s| - 1] in cutset {
      var rest := TrimRightSplits(s[..|s| - 1], cutset);
      cut := rest + [s[|s| - 1]];
    } else {
      cut := "";
    }
  }

  /** Trimming takes cut characters off the ends, and nothing else. */
  lemma TrimSplits(s: string, cutset: set<char>) returns (left: string, right: string)
    ensures s == left + Trim(s, cutset) + right
    ensures forall c :: c in left || c in right ==> c in cutset
  {
    left := TrimLeftSplits(s, cutset);
    right := TrimRightSplits(TrimLeft(s, cutset), cutset);
  }

  lemma TrimTwice(s: string, cutset: set<char>)
    ensures Trim(Trim(s, cutset), cutset) == Trim(s, cutset)
  {
    TrimMeaning(s, cutset);
    TrimMeaning(Trim(s, cutset), cutset);
  }

  /** The parts of a string from those of the string without its first character. */
  function Before(c: char, parts: seq<string>, sep: char): (r: seq<string>)
    requires parts != []
    ensures r != []
  {
    if c == sep then [""] + parts else [[c] + parts[0]] + parts[1..]
  }

  /** strings.Split with a one-character separator. */
  function Split(s: string, sep: char): (parts: seq<string>)
    ensures |parts| >= 1
  {
    if s == "" then [""] else Before(s[0], Split(s[1..], sep), sep)
  }

  lemma BeforeConcat(c: char, front: seq<string>, back: seq<string>, sep: char)
    requires front != []
    ensures Before(c, front + back, sep) == Before(c, front, sep) + back
  {
    assert (front + back)[0] == front[0] && (front + back)[1..] == front[1..] + back;
  }

  /** strings.Join with a one-character separator. */
  function Join(parts: seq<string>, sep: char): string {
    if parts == [] then ""
    else if |parts| == 1 then parts[0]
    else parts[0] + [sep] + Join(parts[1..], sep)
  }

  ghost predicate Separable(parts: seq<string>, sep: char) {
    forall i :: 0 <= i < |parts| ==> sep !in parts[i]
  }

  lemma {:induction false} SplitParts(s: string, sep: char)
    ensures Separable(Split(s, sep), sep)
  {
    if s != "" {
      SplitParts(s[1..], sep);
      var rest := Split(s[1..], sep);
      if s[0] != sep {
        assert sep !in rest[0];
        assert sep !in [s[0]] + rest[0];
      }
    }
  }

  lemma JoinBefore(c: char, parts: seq<string>, sep: char)
    requires parts != []
    ensures Join(Before(c, parts, sep), sep) == [c] + Join(parts, sep)
  {
    var r := Before(c, parts, sep);
    if c == sep {
      assert r[1..] == parts;
      assert "" + [sep] + Join(parts, sep) == [c] + Join(parts, sep);
    } else {
      assert r[0] == [c] + parts[0] && r[1..] == parts[1..];
      if |parts| > 1 {
        assert [c] + (parts[0] + [sep] + Join(parts[1..], sep)) == r[0] + [sep] + Join(r[1..], sep);
      }
    }
  }

  lemma {:induction false} JoinAfterSplit(s: string, sep: char)
    ensures Join(Split(s, sep), sep) == s
  {
    if s != "" {
      JoinAfterSplit(s[1..], sep);
      JoinBefore(s[0], Split(s[1..], sep), sep);
      assert s == [s[0]] + s[1..];
    }
  }

  lemma BeforePrefix(c: char, p: string, parts: seq<string>, sep: char)
    requires parts != [] && c != sep
    ensures Before(c, [p + parts[0]] + parts[1..], sep) == [([c] + p) + parts[0]] + parts[1..]
  {
    assert [c] + (p + parts[0]) == ([c] + p) + parts[0];
  }

  lemma {:induction false} SplitPrefix(p: string, s: string, sep: char)
    requires sep !in p
    ensures Split(p + s, sep) == [p + Split(s, sep)[0]] + Split(s, sep)[1..]
  {
    if p == "" {
      assert p + s == s && p + Split(s, sep)[0] == Split(s, sep)[0];
    } else {
      SplitPrefix(p[1..], s, sep);
      assert (p + s)[0] == p[0] && (p + s)[1..] == p[1..] + s;
      BeforePrefix(p[0], p[1..], Split(s, sep), sep);
      assert [p[0]] + p[1..] == p;
    }
  }

  lemma {:induction false} SplitAfterJoin(parts: seq<string>, sep: char)
    requires parts != [] && Separable(parts, sep)
    ensures Split(Join(parts, sep), sep) == parts
  {
    if |parts| == 1 {
      SplitPrefix(parts[0], "", sep);
      assert parts[0] + "" == parts[0];
    } else {
      SplitAfterJoin(parts[1..], sep);
      var tail := [sep] + Join(parts[1..], sep);
      assert Join(parts, sep) == parts[0] + tail;
      assert tail[1..] == Join(parts[1..], sep);
      SplitPrefix(parts[0], tail, sep);
      assert parts[0] + "" == parts[0];
    }
  }

  lemma {:induction false} SplitAround(a: string, b: string, sep: char)
    ensures Split(a + [sep] + b, sep) == Split(a, sep) + Split(b, sep)
    decreases |a|
  {
    var s := a + [sep] + b;
    if a == "" {
      assert s[1..] == b;
    } else {
      SplitAround(a[1..], b, sep);
      assert s[0] == a[0] && s[1..] == a[1..] + [sep] + b;
      BeforeConcat(a[0], Split(a[1..], sep), Split(b, sep), sep);
    }
  }

  /** All parts of all entries, in order. */
  function Pieces(parts: seq<string>, sep: char): seq<string> {
    if parts == [] then [] else Split(parts[0], sep) + Pieces(parts[1..], sep)
  }

  lemma {:induction false} SplitOfJoin(parts: seq<string>, sep: char)
    requires parts != []
    ensures Split(Join(parts, sep), sep) == Pieces(parts, sep)
  {
    if |parts| == 1 {
      assert parts[1..] == [] && Split(parts[0], sep) + [] == Split(parts[0], sep);
    } else {
      SplitOfJoin(parts[1..], sep);
      SplitAround(parts[0], Join(parts[1..], sep), sep);
    }
  }

  lemma PiecesCons(first: string, rest: seq<string>, sep: char)
    ensures Pieces([first] + rest, sep) == Split(first, sep) + Pieces(rest, sep)
  {
    assert ([first] + rest)[1..] == rest;
  }

  lemma PiecesConsConcat(first: string, rest: seq<string>, b: seq<string>, sep: char)
    requires Pieces(rest + b, sep) == Pieces(rest, sep) + Pieces(b, sep)
    ensures Pieces([first] + (rest + b), sep) == Pieces([first] + rest, sep) + Pieces(b, sep)
  {
    PiecesCons(first, rest + b, sep);
    PiecesCons(first, rest, sep);
    Regroup(Split(first, sep), Pieces(rest, sep), Pieces(b, sep));
  }

  lemma Regroup(a: seq<string>, b: seq<string>, c: seq<string>)
    ensures a + (b + c) == (a + b) + c
  {
  }

  lemma {:induction false} PiecesConcat(a: seq<string>, b: seq<string>, sep: char)
    ensures Pieces(a + b, sep) == Pieces(a, sep) + Pieces(b, sep)
  {
    if a == [] {
      assert a + b == b;
    } else {
      var first, rest := a[0], a[1..];
      PiecesConcat(rest, b, sep);
      PiecesConsConcat(first, rest, b, sep);
      assert a == [first] + rest;
      assert a + b == [first] + (rest + b);
    }
  }

  lemma {:induction false} PiecesSeparable(parts: seq<string>, sep: char)
    requires Separable(parts, sep)
    ensures Pieces(parts, sep) == parts
  {
    if parts != [] {
      PiecesSeparable(parts[1..], sep);
      SplitAfterJoin([parts[0]], sep);
      assert [parts[0]] + parts[1..] == parts;
    }
  }

  lemma {:induction false} PartCount(s: string, sep: char)
    ensures |Split(s, sep)| == multiset(s)[sep] + 1
  {
    if s != "" {
      PartCount(s[1..], sep);
      assert s == [s[0]] + s[1..];
    }
  }

  lemma {:induction false} TrimLeftCount(s: string, sep: char)
    ensures multiset(TrimLeft(s, {sep}))[sep] <= multiset(s)[sep]
    ensures s != "" && s[0] == sep ==> multiset(TrimLeft(s, {sep}))[sep] < multiset(s)[sep]
  {
    if s != "" && s[0] == sep {
      TrimLeftCount(s[1..], sep);
      assert s == [s[0]] + s[1..];
    }
  }

  lemma {:induction false} TrimRightCount(s: string, sep: char)
    ensures multiset(TrimRight(s, {sep}))[sep] <= multiset(s)[sep]
    ensures s != "" && s[|s| - 1] == sep ==> multiset(TrimRight(s, {sep}))[sep] < multiset(s)[sep]
  {
    if s != "" && s[|s| - 1] == sep {
      TrimRightCount(s[..|s| - 1], sep);
      assert s == s[..|s| - 1] + [s[|s| - 1]];
    }
  }

  /** Trimming separators off an end costs a part for each. */
  lemma TrimDropsParts(s: string, sep: char)
    requires !Trimmed(s, {sep})
    ensures |Split(Trim(s, {sep}), sep)| < |Split(s, sep)|
  {
    PartCount(s, sep);
    PartCount(Trim(s, {sep}), sep);
    TrimLeftCount(s, sep);
    TrimRightCount(TrimLeft(s, {sep}), sep);
    if s[0] != sep {
      assert TrimLeft(s, {sep}) == s;
    }
  }

  /** How a channel reads a separated list field: GetModels and, for newline lists, GetKeys. */
  function ReadList(field: string, sep: char): seq<string> {
    if field == "" then [] else Split(Trim(field, {sep}), sep)
  }

  lemma {:induction false} JoinEnds(parts: seq<string>, sep: char)
    requires parts != []
    ensures var j := Join(parts, sep);
      && (parts[0] != "" ==> j != "" && j[0] == parts[0][0])
      && (parts[|parts| - 1] != "" ==> j != "" && var l := parts[|parts| - 1]; j[|j| - 1] == l[|l| - 1])
      && (|parts| > 1 && parts[0] == "" ==> j != "" && j[0] == sep)
      && (|parts| > 1 && parts[|parts| - 1] == "" ==> j != "" && j[|j| - 1] == sep)
  {
    if |parts| > 1 {
      JoinEnds(parts[1..], sep);
    }
  }

  /** A stored list reads back as itself exactly when it is empty or has a non-empty first and last entry. */
  lemma ReadListRoundTrip(parts: seq<string>, sep: char)
    requires Separable(parts, sep)
    ensures ReadList(Join(parts, sep), sep) == parts
      <==> parts == [] || (parts[0] != "" && parts[|parts| - 1] != "")
  {
    var j := Join(parts, sep);
    if parts != [] {
      JoinEnds(parts, sep);
      TrimMeaning(j, {sep});
      var first, last := parts[0], parts[|parts| - 1];
      assert first != "" ==> first[0] != sep;
      assert last != "" ==> last[|last| - 1] != sep;
      if first != "" && last != "" {
        assert Trim(j, {sep}) == j;
        SplitAfterJoin(parts, sep);
      } else if j != "" && ReadList(j, sep) == parts {
        JoinAfterSplit(Trim(j, {sep}), sep);
        assert false;
      }
    }
  }

  /** Every list read from a non-empty field has clean ends, or is the single empty entry. */
  lemma ReadListShape(field: string, sep: char)
    ensures var parts := ReadList(field, sep);
      && Separable(parts, sep)
      && (field == "" <==> parts == [])
      && (parts == [] || parts == [""] || (parts[0] != "" && parts[|parts| - 1] != ""))
  {
    if field != "" {
      var t := Trim(field, {sep});
      TrimMeaning(field, {sep});
      SplitParts(t, sep);
      JoinAfterSplit(t, sep);
      JoinEnds(Split(t, sep), sep);
    }
  }
}
