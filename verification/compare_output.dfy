/** The transcript comparator: a command-line tool that splits an expected
    and an actual transcript into lines and accepts the actual one only when
    it has the same number of lines and every line is equal, reporting the
    first difference otherwise. Printing is left out; the model returns the
    exit code together with the message that would be printed first. */
module CompareOutput {
  import opened Results
  import opened Text
  import opened Decimal

  /** `getLines`: one scan over the characters, closing the current line at
      every '\n' and once more at the end. */
  method GetLines(s: string) returns (lines: seq<string>)
    ensures |lines| == Count(s, '\n') + 1
    ensures forall k :: 0 <= k < |lines| ==> '\n' !in lines[k]
    ensures Join(lines, '\n') == s
  {
    lines := [];
    var current := "";
    var i := 0;
    while i < |s|
      invariant 0 <= i <= |s|
      invariant lines + [current] == Split(s[..i], '\n')
    {
      assert s[..i + 1] == s[..i] + [s[i]];
      assert s[..i + 1][..i] == s[..i];
      if s[i] == '\n' {
        lines := lines + [current];
        current := "";
      } else {
        current := current + [s[i]];
      }
      i := i + 1;
    }
    assert s[..i] == s;
    lines := lines + [current];
  }

  /** `build_string`: the parts written one after another into one buffer. */
  method BuildString(parts: seq<string>) returns (out: string)
    ensures out == Concat(parts)
  {
    out := "";
    var i := 0;
    while i < |parts|
      invariant 0 <= i <= |parts|
      invariant out == Concat(parts[..i])
    {
      assert parts[..i + 1][..i] == parts[..i];
      out := out + parts[i];
      i := i + 1;
    }
    assert parts[..i] == parts;
  }

  /** The process outcome: exit code and the diagnostic line printed before
      both transcripts (empty on success, when nothing is printed). */
  datatype Verdict = Verdict(exitCode: nat, message: string)

  /** The parts are written to one stream; the message is the counts in
      decimal between fixed words. */
  function CountMismatchMessage(expected: nat, actual: nat): (r: string)
    ensures r == "Output mismatch. Expected " + NatToString(expected) + " lines but got " +
      NatToString(actual) + " lines."
  {
    var parts := ["Output mismatch. Expected ", NatToString(expected), " lines but got ",
                  NatToString(actual), " lines."];
    ConcatFive(parts);
    Concat(parts)
  }

  /** The line number is reported 1-based. The word "mistmatch" is spelled
      as the tool prints it. */
  function LineMismatchMessage(index: nat, expected: string, actual: string): (r: string)
    ensures r == "Output mistmatch on line " + NatToString(index + 1) + ":\nExpected: \"" +
      expected + "\"\nReceived: \"" + actual + "\""
  {
    var parts := ["Output mistmatch on line ", NatToString(index + 1), ":\nExpected: \"",
                  expected, "\"\nReceived: \"", actual, "\""];
    ConcatFive(parts[..5]);
    assert parts[..6][..5] == parts[..5];
    assert Concat(parts[..6]) == Concat(parts[..5]) + parts[5];
    assert Concat(parts) == Concat(parts[..6]) + parts[6];
    Concat(parts)
  }

  lemma ConcatFive(parts: seq<string>)
    requires |parts| == 5
    ensures Concat(parts) == parts[0] + parts[1] + parts[2] + parts[3] + parts[4]
  {
    var p4, p3, p2, p1 := parts[..4], parts[..3], parts[..2], parts[..1];
    assert p4[..3] == p3 && p3[..2] == p2 && p2[..1] == p1 && p1[..0] == [];
    assert Concat(p1) == parts[0];
    assert Concat(p2) == Concat(p1) + parts[1];
    assert Concat(p3) == Concat(p2) + parts[2];
    assert Concat(p4) == Concat(p3) + parts[3];
  }

  /** The counts in a count mismatch message can be read back: different
      counts give different messages. */
  lemma CountsDistinguish(a: nat, b: nat, c: nat, d: nat)
    requires CountMismatchMessage(a, b) == CountMismatchMessage(c, d)
    ensures a == c && b == d
  {
    var head, mid, tail := "Output mismatch. Expected ", " lines but got ", " lines.";
    var na, nb, nc, nd := NatToString(a), NatToString(b), NatToString(c), NatToString(d);
    var m := CountMismatchMessage(a, b);
    assert m == head + na + (mid + nb + tail) by {
      assert m == head + na + mid + nb + tail;
    }
    assert m == head + nc + (mid + nd + tail) by {
      assert m == head + nc + mid + nd + tail;
    }
    NumeralAfter(head, na, mid + nb + tail, nc, mid + nd + tail);
    NatToStringInjective(a, c);
    assert mid + nb + tail == mid + nd + tail;
    NumeralAfter(mid, nb, tail, nd, tail);
    NatToStringInjective(b, d);
  }

  /** Two texts that agree on a common start, continue with a numeral and
      then with a character that is not a digit agree on the numeral and on
      everything after it. */
  lemma NumeralAfter(h: string, x: string, u: string, y: string, v: string)
    requires h + x + u == h + y + v
    requires AllDigits(x) && AllDigits(y)
    requires |u| > 0 && !IsDigit(u[0]) && |v| > 0 && !IsDigit(v[0])
    ensures x == y && u == v
  {
    var m := (h + x + u)[|h|..];
    assert m == x + u && m == y + v;
    assert m[..|x|] == x && m[|x|] == u[0];
    assert m[..|y|] == y && m[|y|] == v[0];
    NumeralsPrefixFree(x, y, m);
    assert u == m[|x|..] == v;
  }

  /** The first position at or after `from` where the two equally long line
      sequences differ, if any. */
  function FirstDifference(expected: seq<string>, actual: seq<string>, from: nat): (r: Option<nat>)
    requires |expected| == |actual| && from <= |expected|
    ensures r.Some? ==> from <= r.value < |expected| && expected[r.value] != actual[r.value]
    ensures r.Some? ==> forall j :: from <= j < r.value ==> expected[j] == actual[j]
    ensures r.None? ==> forall j :: from <= j < |expected| ==> expected[j] == actual[j]
    decreases |expected| - from
  {
    if from == |expected| then None
    else if expected[from] != actual[from] then Some(from)
    else FirstDifference(expected, actual, from + 1)
  }

  /** `main` on its two transcript arguments. */
  function Compare(expected: string, actual: string): (v: Verdict)
    ensures v.exitCode == 0 || v.exitCode == 1
    ensures v.exitCode == 0 <==> expected == actual
    ensures v.exitCode == 0 ==> v.message == ""
  {
    var e := Split(expected, '\n');
    var a := Split(actual, '\n');
    if |e| != |a| then
      Verdict(1, CountMismatchMessage(|e|, |a|))
    else
      match FirstDifference(e, a, 0)
      case Some(i) => Verdict(1, LineMismatchMessage(i, e[i], a[i]))
      case None =>
        assert e == a;
        Verdict(0, "")
  }

  /** Transcripts with different numbers of lines fail with the two counts;
      the count of lines is one more than the count of line breaks. */
  lemma CompareCountMismatch(expected: string, actual: string)
    requires Count(expected, '\n') != Count(actual, '\n')
    ensures Compare(expected, actual) ==
      Verdict(1, CountMismatchMessage(Count(expected, '\n') + 1, Count(actual, '\n') + 1))
  {
  }

  /** Transcripts with the same number of lines fail at the first line that
      differs, naming it with its 1-based number and both texts. */
  lemma CompareFirstMismatch(expected: string, actual: string, i: nat)
    requires |Split(expected, '\n')| == |Split(actual, '\n')|
    requires i < |Split(expected, '\n')|
    requires Split(expected, '\n')[i] != Split(actual, '\n')[i]
    requires forall j :: 0 <= j < i ==> Split(expected, '\n')[j] == Split(actual, '\n')[j]
    ensures Compare(expected, actual) ==
      Verdict(1, LineMismatchMessage(i, Split(expected, '\n')[i], Split(actual, '\n')[i]))
  {
    FirstDifferenceAt(Split(expected, '\n'), Split(actual, '\n'), 0, i);
  }

  lemma {:induction false} FirstDifferenceAt(e: seq<string>, a: seq<string>, from: nat, i: nat)
    requires |e| == |a| && from <= i < |e|
    requires e[i] != a[i]
    requires forall j :: from <= j < i ==> e[j] == a[j]
    ensures FirstDifference(e, a, from) == Some(i)
    decreases i - from
  {
    if from < i {
      FirstDifferenceAt(e, a, from + 1, i);
    }
  }

  /** A transcript always matches itself. */
  lemma CompareIdentical(s: string)
    ensures Compare(s, s) == Verdict(0, "")
  {
  }

  /** The line number in a mismatch message determines the line: mismatch
      messages for different lines are different. */
  lemma LineNumbersDistinguish(i: nat, j: nat, e: string, a: string, e': string, a': string)
    requires LineMismatchMessage(i, e, a) == LineMismatchMessage(j, e', a')
    ensures i == j
  {
    var head := "Output mistmatch on line ";
    var ni := NatToString(i + 1);
    var nj := NatToString(j + 1);
    var m := LineMismatchMessage(i, e, a);
    var rest := MismatchTail(head, i, e, a);
    var rest' := MismatchTail(head, j, e', a');
    assert m == head + ni + rest;
    assert m == head + nj + rest';
    assert m[|head|..] == ni + rest == nj + rest';
    NumeralsPrefixFree(ni, nj, m[|head|..]);
    NatToStringInjective(i + 1, j + 1);
  }

  /** The mismatch message after the line number starts with ':'. */
  lemma MismatchTail(head: string, i: nat, e: string, a: string) returns (rest: string)
    requires head == "Output mistmatch on line "
    ensures LineMismatchMessage(i, e, a) == head + NatToString(i + 1) + rest
    ensures |rest| > 0 && rest[0] == ':'
  {
    var ni := NatToString(i + 1);
    var tail := [":\nExpected: \"", e, "\"\nReceived: \"", a, "\""];
    ConcatCons(head, [ni] + tail);
    ConcatCons(ni, tail);
    ConcatCons(tail[0], tail[1..]);
    assert [head] + ([ni] + tail) == [head, ni, ":\nExpected: \"", e, "\"\nReceived: \"", a, "\""];
    assert [tail[0]] + tail[1..] == tail;
    rest := Concat(tail);
  }

  /** A numeral followed by a character that is not a digit is read up to
      that character unambiguously. */
  lemma NumeralsPrefixFree(x: string, y: string, m: string)
    requires AllDigits(x) && AllDigits(y)
    requires |x| < |m| && m[..|x|] == x && !IsDigit(m[|x|])
    requires |y| < |m| && m[..|y|] == y && !IsDigit(m[|y|])
    ensures x == y
  {
    assert forall t :: 0 <= t < |x| ==> IsDigit(m[t]);
    assert forall t :: 0 <= t < |y| ==> IsDigit(m[t]);
    assert |x| == |y|;
  }

  /** The order of lines matters: exchanging two different lines of a
      transcript makes the comparison fail. */
  lemma CompareOrderSensitive(lines: seq<string>, i: nat, j: nat)
    requires i < j < |lines| && lines[i] != lines[j]
    requires forall k :: 0 <= k < |lines| ==> '\n' !in lines[k]
    ensures Compare(Join(lines, '\n'), Join(lines[i := lines[j]][j := lines[i]], '\n')).exitCode == 1
  {
    var swapped := lines[i := lines[j]][j := lines[i]];
    SplitOfJoin(lines, '\n');
    SplitOfJoin(swapped, '\n');
    assert swapped[i] != lines[i];
  }

  /** The empty transcript is one empty line, and a final line break opens
      one more, empty, line. */
  lemma SplitEdgeCases(s: string)
    ensures Split("", '\n') == [""]
    ensures Split(s + "\n", '\n') == Split(s, '\n') + [""]
  {
    assert (s + "\n")[..|s|] == s;
  }
}
