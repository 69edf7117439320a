/** `decorate` as its line loop is written, one character per byte. The
    loop advances with `in.find(newLinePtr, '\n')`: the arguments are
    swapped, so the call that is chosen is `find(char c, size_t pos)` with
    `c` the low byte of the previous position and `pos` the code of '\n',
    which is 10. The model below
    follows that call; `fuel` bounds the number of loop rounds, and running
    out of fuel stands for a loop that does not stop. */
module DecorateAsWritten {
  import opened Results
  import PrintHelpers

  /** Values of `size_t` are taken modulo 2^64. */
  const SizeModulus: nat := 0x1_0000_0000_0000_0000

  /** `s.find(c, pos)`: the first position at or after `pos` that holds `c`. */
  function FindFrom(s: string, c: char, pos: nat): (r: Option<nat>)
    ensures r.Some? ==> pos <= r.value < |s| && s[r.value] == c
    ensures r.Some? ==> forall j :: pos <= j < r.value ==> s[j] != c
    ensures r.None? ==> forall j :: pos <= j < |s| ==> s[j] != c
    decreases |s| - pos
  {
    if pos >= |s| then None
    else if s[pos] == c then Some(pos)
    else FindFrom(s, c, pos + 1)
  }

  /** `s.substr(pos, count)` for a start inside the string: at most `count`
      characters, fewer when the string ends first. */
  function Substr(s: string, pos: nat, count: nat): string
    requires pos <= |s|
  {
    if count <= |s| - pos then s[pos..pos + count] else s[pos..]
  }

  /** The `char` a `size_t` converts to: its low byte. */
  function CharOf(n: nat): char
  {
    (n % 256) as char
  }

  /** The loop from the round that has found a line break at `ptr` and
      whose current line starts at `prev`. */
  function Loop(text: string, prefix: string, prev: nat, ptr: nat, fuel: nat): Option<string>
    requires prev <= |text| && ptr < |text|
    decreases fuel
  {
    if fuel == 0 then None
    else
      var line := prefix + Substr(text, prev, (ptr - prev) % SizeModulus) + PrintHelpers.Reset + "\n";
      match FindFrom(text, CharOf(ptr), 10)
      case None => Some(line + prefix + text[ptr + 1..] + PrintHelpers.Reset)
      case Some(next) =>
        match Loop(text, prefix, ptr + 1, next, fuel - 1)
        case None => None
        case Some(rest) => Some(line + rest)
  }

  /** `decorate` as written; `None` when the loop is still running after
      `fuel` rounds. */
  function Decorate(text: string, tc: PrintHelpers.TextColor, st: PrintHelpers.Style,
                    bc: PrintHelpers.BackgroundColor, fuel: nat): (r: Option<string>)
    ensures PrintHelpers.Undecorated(tc, st, bc) ==> r == Some(text)
    ensures !PrintHelpers.Undecorated(tc, st, bc) && '\n' !in text ==>
      r == Some(PrintHelpers.Prefix(tc, st, bc) + text + PrintHelpers.Reset)
  {
    if PrintHelpers.Undecorated(tc, st, bc) then Some(text)
    else
      var prefix := PrintHelpers.Prefix(tc, st, bc);
      match FindFrom(text, '\n', 0)
      case None =>
        assert text[0..] == text;
        Some(prefix + text[0..] + PrintHelpers.Reset)
      case Some(first) => Loop(text, prefix, 0, first, fuel)
  }

  /** With three lines, the second line break is never found: the text
      "b\nc" is wrapped as one line, so the break after "b" is followed by
      "c" and not by the prefix, unlike the intended decoration. */
  lemma SecondBreakLeftBare(fuel: nat)
    requires fuel >= 1
    ensures var tc := PrintHelpers.TextColor.Red;
      var st := PrintHelpers.Style.None;
      var bc := PrintHelpers.BackgroundColor.None;
      var p := PrintHelpers.Prefix(tc, st, bc);
      var r := PrintHelpers.Reset;
      Decorate("a\nb\nc", tc, st, bc, fuel) == Some(p + "a" + r + "\n" + p + "b\nc" + r) &&
      !PrintHelpers.BreaksBracketed(p + "a" + r + "\n" + p + "b\nc" + r, '\n', p, r) &&
      PrintHelpers.BreaksBracketed(PrintHelpers.Decorate("a\nb\nc", tc, st, bc), '\n', p, r)
  {
    var tc := PrintHelpers.TextColor.Red;
    var st := PrintHelpers.Style.None;
    var bc := PrintHelpers.BackgroundColor.None;
    var p := PrintHelpers.Prefix(tc, st, bc);
    var r := PrintHelpers.Reset;
    var text := "a\nb\nc";
    PrintHelpers.ColorPrefix(tc, st);
    assert text[1] == '\n' && text[0] != '\n';
    assert FindFrom(text, '\n', 0) == Some(1);
    ThreeLinesLoop(p, fuel);
    var out := p + "a" + r + "\n" + p + "b\nc" + r;
    assert out == (p + "a" + r + "\n" + p + "b") + "\nc" + r;
    BareBreak(p + "a" + r + "\n" + p + "b", r, p, r);
    PrintHelpers.DecorateLineBreaks(text, tc, st, bc);
  }

  /** The loop on "a\nb\nc" after finding the break at 1: the next search
      looks for the character 1 from position 10, past the end. */
  lemma ThreeLinesLoop(prefix: string, fuel: nat)
    requires fuel >= 1
    ensures Loop("a\nb\nc", prefix, 0, 1, fuel) ==
      Some(prefix + "a" + PrintHelpers.Reset + "\n" + prefix + "b\nc" + PrintHelpers.Reset)
  {
    var text := "a\nb\nc";
    assert FindFrom(text, CharOf(1), 10) == None;
    assert Substr(text, 0, (1 - 0) % SizeModulus) == "a";
    assert text[2..] == "b\nc";
  }

  /** A line break followed by 'c' is not followed by a prefix that starts
      with something else. */
  lemma BareBreak(u: string, v: string, left: string, right: string)
    requires |left| > 0 && left[0] != 'c'
    ensures !PrintHelpers.BreaksBracketed(u + "\nc" + v, '\n', left, right)
  {
    var out := u + "\nc" + v;
    var i := |u|;
    assert out[i] == '\n' && out[i + 1] == 'c';
    if i + 1 + |left| <= |out| {
      assert out[i + 1..i + 1 + |left|][0] == out[i + 1];
    }
    assert !PrintHelpers.BreakBracketed(out, i, left, right);
  }

  /** When the first line break is at position 10, the search for the next
      one looks for '\n' (byte 10) from position 10 and finds the same break
      again, forever: no amount of fuel is enough. */
  lemma BreakAtTenNeverEnds(fuel: nat)
    ensures Decorate("0123456789\n", PrintHelpers.TextColor.Red, PrintHelpers.Style.None,
                     PrintHelpers.BackgroundColor.None, fuel).None?
  {
    var text := "0123456789\n";
    var p := PrintHelpers.Prefix(PrintHelpers.TextColor.Red, PrintHelpers.Style.None,
                                 PrintHelpers.BackgroundColor.None);
    assert text[10] == '\n';
    assert forall j :: 0 <= j < 10 ==> text[j] != '\n';
    assert FindFrom(text, '\n', 0) == Some(10);
    assert FindFrom(text, CharOf(10), 10) == Some(10);
    if fuel > 0 {
      StuckAtTen(text, p, fuel - 1);
    }
  }

  lemma {:induction false} StuckAtTen(text: string, prefix: string, fuel: nat)
    requires text == "0123456789\n"
    ensures Loop(text, prefix, 11, 10, fuel).None?
    decreases fuel
  {
    if fuel > 0 {
      assert text[10] == '\n';
      assert FindFrom(text, CharOf(10), 10) == Some(10);
      StuckAtTen(text, prefix, fuel - 1);
    }
  }
}
