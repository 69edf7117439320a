/** Character sequences: counting, splitting at a separator, joining with a
    separator and plain concatenation. Splitting and joining are defined from
    the END of the sequence, in the order a left-to-right scan produces them. */
module Text {

  /** Number of occurrences of `c` in `s`. */
  function Count(s: string, c: char): nat
  {
    if |s| == 0 then 0
    else Count(s[..|s| - 1], c) + (if s[|s| - 1] == c then 1 else 0)
  }

  /** The parts separated by `sep`, joined back with one `sep` between
      neighbours. The join of no parts is the empty string. */
  function Join(parts: seq<string>, sep: char): string
  {
    if |parts| == 0 then ""
    else if |parts| == 1 then parts[0]
    else Join(parts[..|parts| - 1], sep) + [sep] + parts[|parts| - 1]
  }

  /** Concatenation of all parts, in order. */
  function Concat(parts: seq<string>): string
  {
    if |parts| == 0 then ""
    else Concat(parts[..|parts| - 1]) + parts[|parts| - 1]
  }

  lemma JoinSnoc(init: seq<string>, last: string, sep: char)
    requires |init| >= 1
    ensures Join(init + [last], sep) == Join(init, sep) + [sep] + last
  {
    assert (init + [last])[..|init|] == init;
  }

  /** `s` cut at every `sep`: one more part than there are separators, no
      part contains the separator, and joining the parts gives `s` back. */
  function Split(s: string, sep: char): (parts: seq<string>)
    ensures |parts| == Count(s, sep) + 1
    ensures forall k :: 0 <= k < |parts| ==> sep !in parts[k]
    ensures Join(parts, sep) == s
    decreases |s|
  {
    if |s| == 0 then [""]
    else
      var init := Split(s[..|s| - 1], sep);
      var c := s[|s| - 1];
      assert s[..|s| - 1] + [c] == s;
      if c == sep then
        JoinSnoc(init, "", sep);
        init + [""]
      else
        ExtendLast(init, c, sep);
        init[..|init| - 1] + [init[|init| - 1] + [c]]
  }

  /** Appending a non-separator to the joined text extends the last part. */
  lemma ExtendLast(parts: seq<string>, c: char, sep: char)
    requires |parts| >= 1 && c != sep
    requires forall k :: 0 <= k < |parts| ==> sep !in parts[k]
    ensures var r := parts[..|parts| - 1] + [parts[|parts| - 1] + [c]];
      |r| == |parts| &&
      (forall k :: 0 <= k < |r| ==> sep !in r[k]) &&
      Join(r, sep) == Join(parts, sep) + [c]
  {
    var front := parts[..|parts| - 1];
    var last := parts[|parts| - 1];
    var r := front + [last + [c]];
    assert front + [last] == parts;
    if |front| > 0 {
      JoinSnoc(front, last, sep);
      JoinSnoc(front, last + [c], sep);
    }
    forall k | 0 <= k < |r|
      ensures sep !in r[k]
    {
      if k < |front| {
        assert r[k] == parts[k];
      }
    }
  }

  /** A sequence without the separator is a single part. */
  lemma {:induction false} SplitWithoutSeparator(s: string, sep: char)
    requires sep !in s
    ensures Split(s, sep) == [s]
  {
    assert Count(s, sep) == 0 by { CountAbsent(s, sep); }
  }

  lemma {:induction false} CountAbsent(s: string, c: char)
    requires c !in s
    ensures Count(s, c) == 0
    decreases |s|
  {
    if |s| > 0 {
      assert c !in s[..|s| - 1];
      CountAbsent(s[..|s| - 1], c);
    }
  }

  /** Appending a separator and a separator-free tail adds exactly that tail
      as a new last part. */
  lemma {:induction false} SplitAppend(x: string, y: string, sep: char)
    requires sep !in y
    ensures Split(x + [sep] + y, sep) == Split(x, sep) + [y]
    decreases |y|
  {
    var s := x + [sep] + y;
    if |y| == 0 {
      assert s[..|s| - 1] == x;
    } else {
      var y' := y[..|y| - 1];
      assert s[..|s| - 1] == x + [sep] + y';
      assert y' + [y[|y| - 1]] == y;
      SplitAppend(x, y', sep);
      var init := Split(x + [sep] + y', sep);
      assert init[..|init| - 1] == Split(x, sep);
    }
  }

  /** Splitting undoes joining, for parts that do not contain the separator:
      with `Split`'s own contract, the two are inverse bijections. */
  lemma {:induction false} SplitOfJoin(parts: seq<string>, sep: char)
    requires |parts| >= 1
    requires forall k :: 0 <= k < |parts| ==> sep !in parts[k]
    ensures Split(Join(parts, sep), sep) == parts
    decreases |parts|
  {
    if |parts| == 1 {
      SplitWithoutSeparator(parts[0], sep);
    } else {
      var init := parts[..|parts| - 1];
      var last := parts[|parts| - 1];
      assert init + [last] == parts;
      SplitOfJoin(init, sep);
      SplitAppend(Join(init, sep), last, sep);
    }
  }

  /** The join of several parts starts with the first part and ends with the
      last one. */
  lemma {:induction false} JoinEnds(parts: seq<string>, sep: char)
    requires |parts| >= 1
    ensures parts[0] <= Join(parts, sep)
    ensures |parts[|parts| - 1]| <= |Join(parts, sep)|
    ensures Join(parts, sep)[|Join(parts, sep)| - |parts[|parts| - 1]|..] == parts[|parts| - 1]
    decreases |parts|
  {
    if |parts| > 1 {
      var init := parts[..|parts| - 1];
      JoinEnds(init, sep);
      assert init[0] == parts[0];
    }
  }

  lemma {:induction false} ConcatCons(head: string, tail: seq<string>)
    ensures Concat([head] + tail) == head + Concat(tail)
    decreases |tail|
  {
    if |tail| > 0 {
      var t' := tail[..|tail| - 1];
      assert ([head] + tail)[..|tail|] == [head] + t';
      ConcatCons(head, t');
    } else {
      assert [head] + tail == [head];
      assert Concat([head][..0]) == "";
    }
  }

  /** Concatenation places each part, unchanged, right after the parts before
      it. */
  lemma {:induction false} ConcatPlacesParts(parts: seq<string>, i: nat)
    requires i < |parts|
    ensures |Concat(parts[..i])| + |parts[i]| <= |Concat(parts)|
    ensures Concat(parts)[|Concat(parts[..i])|..|Concat(parts[..i])| + |parts[i]|] == parts[i]
    decreases |parts|
  {
    var n := |parts| - 1;
    assert parts[..n + 1] == parts;
    if i == n {
    } else {
      var init := parts[..n];
      assert init[..i] == parts[..i];
      ConcatPlacesParts(init, i);
      assert Concat(parts) == Concat(init) + parts[n];
    }
  }
}
