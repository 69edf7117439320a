/** The order of `std::string` keys in an ordered map: lexicographic by
    character code, a proper prefix coming before its extensions. */
module LexOrder {

  /** `a` comes before `b` by the textbook definition: it is a proper prefix
      of `b`, or at the first position where they differ it holds the
      smaller character. */
  predicate LexBelow(a: string, b: string)
  {
    (|a| < |b| && a == b[..|a|]) ||
    exists k :: 0 <= k < |a| && k < |b| && a[..k] == b[..k] && a[k] < b[k]
  }

  /** `std::string`'s `operator<`, compared one character at a time. */
  predicate Less(a: string, b: string)
    decreases |a|
  {
    if |b| == 0 then false
    else if |a| == 0 then true
    else if a[0] != b[0] then a[0] < b[0]
    else Less(a[1..], b[1..])
  }

  /** The character-by-character comparison is the textbook order. */
  lemma {:induction false} LessIsLexBelow(a: string, b: string)
    ensures Less(a, b) <==> LexBelow(a, b)
    decreases |a|
  {
    if |b| == 0 {
      LexBelowEmpty(a, b);
    } else if |a| == 0 {
      assert a == b[..0];
    } else if a[0] != b[0] {
      LexBelowHead(a, b);
    } else {
      LessIsLexBelow(a[1..], b[1..]);
      LexBelowTail(a, b);
    }
  }

  lemma LexBelowEmpty(a: string, b: string)
    requires |b| == 0
    ensures !LexBelow(a, b)
  {
  }

  lemma LexBelowHead(a: string, b: string)
    requires |a| > 0 && |b| > 0 && a[0] != b[0]
    ensures LexBelow(a, b) <==> a[0] < b[0]
  {
    if a[0] < b[0] {
      assert a[..0] == b[..0];
    }
    if |a| < |b| {
      assert a[0] != b[..|a|][0];
    }
    forall k | 0 < k <= |a| && k <= |b|
      ensures a[..k] != b[..k]
    {
      assert a[..k][0] != b[..k][0];
    }
  }

  lemma LexBelowTail(a: string, b: string)
    requires |a| > 0 && |b| > 0 && a[0] == b[0]
    ensures LexBelow(a, b) <==> LexBelow(a[1..], b[1..])
  {
    var a', b' := a[1..], b[1..];
    PrefixTail(a, b);
    if exists k :: 0 <= k < |a| && k < |b| && a[..k] == b[..k] && a[k] < b[k] {
      var k :| 0 <= k < |a| && k < |b| && a[..k] == b[..k] && a[k] < b[k];
      DifferenceTail(a, b, k);
    }
    if exists k :: 0 <= k < |a'| && k < |b'| && a'[..k] == b'[..k] && a'[k] < b'[k] {
      var k :| 0 <= k < |a'| && k < |b'| && a'[..k] == b'[..k] && a'[k] < b'[k];
      DifferenceCons(a, b, k);
    }
  }

  /** Dropping a common first character keeps a proper prefix proper. */
  lemma PrefixTail(a: string, b: string)
    requires |a| > 0 && |b| > 0 && a[0] == b[0]
    ensures (|a| < |b| && a == b[..|a|]) <==> (|a[1..]| < |b[1..]| && a[1..] == b[1..][..|a[1..]|])
  {
    if |a| < |b| {
      assert b[..|a|] == [b[0]] + b[1..][..|a| - 1];
      assert a == [a[0]] + a[1..];
    }
  }

  /** A first difference at `k` of two strings with the same first character
      is a first difference at `k - 1` of their tails. */
  lemma DifferenceTail(a: string, b: string, k: nat)
    requires |a| > 0 && |b| > 0 && a[0] == b[0]
    requires k < |a| && k < |b| && a[..k] == b[..k] && a[k] < b[k]
    ensures 0 < k && a[1..][..k - 1] == b[1..][..k - 1] && a[1..][k - 1] < b[1..][k - 1]
  {
    assert a[1..][..k - 1] == a[..k][1..];
    assert b[1..][..k - 1] == b[..k][1..];
  }

  /** A first difference at `k` of the tails is one at `k + 1` of the
      strings. */
  lemma DifferenceCons(a: string, b: string, k: nat)
    requires |a| > 0 && |b| > 0 && a[0] == b[0]
    requires k < |a[1..]| && k < |b[1..]| && a[1..][..k] == b[1..][..k] && a[1..][k] < b[1..][k]
    ensures a[..k + 1] == b[..k + 1] && a[k + 1] < b[k + 1]
  {
    assert a[..k + 1] == [a[0]] + a[1..][..k];
    assert b[..k + 1] == [b[0]] + b[1..][..k];
  }

  lemma {:induction false} LessIrreflexive(a: string)
    ensures !Less(a, a)
    decreases |a|
  {
    if |a| > 0 {
      LessIrreflexive(a[1..]);
    }
  }

  lemma {:induction false} LessAsymmetric(a: string, b: string)
    requires Less(a, b)
    ensures !Less(b, a)
    decreases |a|
  {
    if |a| > 0 && a[0] == b[0] {
      LessAsymmetric(a[1..], b[1..]);
    }
  }

  lemma {:induction false} LessTransitive(a: string, b: string, c: string)
    requires Less(a, b) && Less(b, c)
    ensures Less(a, c)
    decreases |a|
  {
    if |a| > 0 && a[0] == b[0] && b[0] == c[0] {
      LessTransitive(a[1..], b[1..], c[1..]);
    }
  }

  /** Any two different strings are ordered one way or the other. */
  lemma {:induction false} LessTotal(a: string, b: string)
    ensures a == b || Less(a, b) || Less(b, a)
    decreases |a|
  {
    if |a| > 0 && |b| > 0 && a[0] == b[0] {
      LessTotal(a[1..], b[1..]);
      assert a == [a[0]] + a[1..] && b == [b[0]] + b[1..];
    }
  }

  /** A proper prefix comes first. */
  lemma {:induction false} LessPrefix(a: string, b: string)
    requires |a| < |b| && a == b[..|a|]
    ensures Less(a, b)
    decreases |a|
  {
    if |a| > 0 {
      LessPrefix(a[1..], b[1..]);
    }
  }

  /** The first differing character decides. */
  lemma {:induction false} LessAt(a: string, b: string, k: nat)
    requires k < |a| && k < |b| && a[..k] == b[..k] && a[k] < b[k]
    ensures Less(a, b)
    decreases k
  {
    if k > 0 {
      assert a[0] == a[..k][0];
      LessAt(a[1..], b[1..], k - 1);
    }
  }
}
