/** strings.Split and its inverse, for byte strings and for text. */
module Text {

  /** The pieces of s between the occurrences of sep; one more piece than occurrences. */
  function Split<T(==)>(s: seq<T>, sep: T): (parts: seq<seq<T>>)
    ensures |parts| > 0
  {
    if s == [] then [[]]
    else
      var rest := Split(s[1..], sep);
      if s[0] == sep then [[]] + rest else [[s[0]] + rest[0]] + rest[1..]
  }

  /** strings.ReplaceAll for single characters. */
  function ReplaceAll<T(==)>(s: seq<T>, from: T, to: T): (r: seq<T>)
    ensures |r| == |s| && forall i | 0 <= i < |s| :: r[i] == if s[i] == from then to else s[i]
  {
    if s == [] then [] else [if s[0] == from then to else s[0]] + ReplaceAll(s[1..], from, to)
  }

  /** strings.Contains. */
  predicate Contains<T(==)>(s: seq<T>, part: seq<T>) {
    exists i | 0 <= i <= |s| :: part <= s[i..]
  }

  function Join<T>(parts: seq<seq<T>>, sep: seq<T>): seq<T> {
    if parts == [] then []
    else if |parts| == 1 then parts[0]
    else parts[0] + sep + Join(parts[1..], sep)
  }

  lemma {:induction false} JoinAppend<T>(parts: seq<seq<T>>, last: seq<T>, sep: seq<T>)
    ensures Join(parts + [last], sep) == if parts == [] then last else Join(parts, sep) + sep + last
  {
    if |parts| > 1 {
      JoinAppend(parts[1..], last, sep);
      assert (parts + [last])[1..] == parts[1..] + [last];
      assert parts[0] + sep + (Join(parts[1..], sep) + sep + last) == Join(parts, sep) + sep + last;
    } else if |parts| == 1 {
      assert (parts + [last])[1..] == [last];
    }
  }

  /** Splitting a text up to its first separator. */
  lemma {:induction false} SplitFirst<T>(first: seq<T>, rest: seq<T>, sep: T)
    requires sep !in first
    ensures Split(first, sep) == [first]
    ensures Split(first + [sep] + rest, sep) == [first] + Split(rest, sep)
  {
    var s := first + [sep] + rest;
    if first == [] {
      assert s[1..] == rest;
    } else {
      SplitFirst(first[1..], rest, sep);
      assert s[1..] == first[1..] + [sep] + rest;
      assert [first[0]] + first[1..] == first;
      assert ([first[1..]] + Split(rest, sep))[1..] == Split(rest, sep);
    }
  }

  /** Splitting undoes joining pieces that do not contain the separator. */
  lemma {:induction false} SplitJoin<T>(parts: seq<seq<T>>, sep: T)
    requires parts != [] && forall p <- parts :: sep !in p
    ensures Split(Join(parts, [sep]), sep) == parts
  {
    hide Split;
    if |parts| == 1 {
      SplitFirst(parts[0], [], sep);
      assert parts == [parts[0]];
    } else {
      SplitJoin(parts[1..], sep);
      SplitFirst(parts[0], Join(parts[1..], [sep]), sep);
      assert [parts[0]] + parts[1..] == parts;
    }
  }
  /** Joining undoes splitting, and no piece contains the separator. */
  lemma {:induction false} JoinSplit<T>(s: seq<T>, sep: T)
    ensures Join(Split(s, sep), [sep]) == s
    ensures forall p <- Split(s, sep) :: sep !in p
  {
    if s != [] {
      JoinSplit(s[1..], sep);
      var rest := Split(s[1..], sep);
      var parts := Split(s, sep);
      if s[0] == sep {
        assert parts[1..] == rest;
        assert [] + [sep] + s[1..] == s;
      } else {
        assert parts[1..] == rest[1..];
        assert [s[0]] + s[1..] == s;
        if |rest| > 1 {
          var more := Join(rest[1..], [sep]);
          assert [s[0]] + rest[0] + [sep] + more == [s[0]] + (rest[0] + [sep] + more);
        }
      }
    }
  }
  lemma ReplaceAppend<T>(a: seq<T>, b: seq<T>, from: T, to: T)
    ensures ReplaceAll(a + b, from, to) == ReplaceAll(a, from, to) + ReplaceAll(b, from, to)
  {}

  /** One string contains another exactly if it is something before it, it, and something after it. */
  lemma ContainsExactly<T>(s: seq<T>, part: seq<T>)
    ensures Contains(s, part) <==> exists a: seq<T>, b: seq<T> :: s == a + part + b
  {
    if Contains(s, part) {
      var i :| 0 <= i <= |s| && part <= s[i..];
      assert s == s[..i] + part + s[i + |part|..];
    }
    if a: seq<T>, b: seq<T> :| s == a + part + b {
      assert s[|a|..] == part + b;
    }
  }
  // ----- two separators

  predicate IsOneOf<T(==)>(c: T, x: T, y: T) {
    c == x || c == y
  }

  /** The text is these segments with one separator, x or y, between each two. */
  predicate Spells<T(==)>(text: seq<T>, segments: seq<seq<T>>, x: T, y: T)
    decreases |segments|
  {
    && segments != [] && (forall i | 0 <= i < |segments[0]| :: !IsOneOf(segments[0][i], x, y))
    && var n := |segments[0]|;
    if |segments| == 1 then text == segments[0]
    else
      n < |text| && text[..n] == segments[0] && IsOneOf(text[n], x, y) && Spells(text[n + 1..], segments[1..], x, y)
  }

  lemma NothingToReplace<T>(a: seq<T>, x: T, y: T)
    requires forall i | 0 <= i < |a| :: !IsOneOf(a[i], x, y)
    ensures ReplaceAll(a, y, x) == a && x !in a
  {}

  /** With the separators made the same, the segments are joined by it, and have it nowhere. */
  lemma {:induction false} SpelledIsJoined<T>(text: seq<T>, segments: seq<seq<T>>, x: T, y: T)
    requires Spells(text, segments, x, y)
    ensures segments != [] && ReplaceAll(text, y, x) == Join(segments, [x])
    ensures forall p <- segments :: x !in p
    decreases |segments|
  {
    hide ReplaceAll;
    NothingToReplace(segments[0], x, y);
    if |segments| > 1 {
      var n := |segments[0]|;
      var rest := text[n + 1..];
      SpelledIsJoined(rest, segments[1..], x, y);
      assert text == segments[0] + ([text[n]] + rest);
      ReplaceAppend(segments[0], [text[n]] + rest, y, x);
      ReplaceAppend([text[n]], rest, y, x);
      OneReplaced(text[n], x, y);
      assert segments[0] + ([x] + Join(segments[1..], [x])) == segments[0] + [x] + Join(segments[1..], [x]);
    } else {
      assert segments == [segments[0]];
    }
  }

  lemma OneReplaced<T>(c: T, x: T, y: T)
    requires IsOneOf(c, x, y)
    ensures ReplaceAll([c], y, x) == [x]
  {}

  /** Splitting at the separators gives the segments. */
  lemma SpelledIsSplit<T>(text: seq<T>, segments: seq<seq<T>>, x: T, y: T)
    requires Spells(text, segments, x, y)
    ensures Split(ReplaceAll(text, y, x), x) == segments
  {
    hide Split, Join, ReplaceAll, Spells;
    SpelledIsJoined(text, segments, x, y);
    SplitJoin(segments, x);
  }

  /** Every text is some segments. */
  lemma {:induction false} EverySpells<T>(text: seq<T>, x: T, y: T) returns (segments: seq<seq<T>>)
    ensures Spells(text, segments, x, y)
    decreases |text|
  {
    var n := FirstOf(text, x, y);
    if n < |text| {
      var rest := EverySpells(text[n + 1..], x, y);
      segments := [text[..n]] + rest;
      assert segments[1..] == rest;
    } else {
      segments := [text];
    }
  }

  lemma {:induction false} FirstOf<T>(text: seq<T>, x: T, y: T) returns (n: nat)
    ensures n <= |text| && (forall i | 0 <= i < n :: !IsOneOf(text[i], x, y)) && (n < |text| ==> IsOneOf(text[n], x, y))
    decreases |text|
  {
    n := 0;
    if text != [] && !IsOneOf(text[0], x, y) {
      n := FirstOf(text[1..], x, y);
      n := n + 1;
    }
  }
}
