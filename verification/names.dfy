/** The order in which names are sorted. The source compares names with
    `localeCompare`; this model uses the plain lexicographic order on
    characters, which is a strict total order on strings. */
module Names {

  /** `a` sorts strictly before `b`: at the first position where they differ
      `a` has the smaller character, or `a` is a proper prefix of `b`. */
  predicate Less(a: string, b: string)
    decreases |a|
  {
    |b| > 0 && (|a| == 0 || a[0] < b[0] || (a[0] == b[0] && Less(a[1..], b[1..])))
  }

  lemma {:induction false} LessIrreflexive(a: string)
    ensures !Less(a, a)
    decreases |a|
  {
    if |a| > 0 {
      LessIrreflexive(a[1..]);
    }
  }

  lemma {:induction false} LessTransitive(a: string, b: string, c: string)
    requires Less(a, b) && Less(b, c)
    ensures Less(a, c)
    decreases |a|
  {
    if |a| > 0 && a[0] == b[0] && b[0] == c[0] {
      LessTransitive(a[1..], b[1..], c[1..]);
    }
  }

  /** Any two different names are comparable: the order is total. */
  lemma {:induction false} LessTotal(a: string, b: string)
    requires a != b
    ensures Less(a, b) || Less(b, a)
    decreases |a|
  {
    if |a| > 0 && |b| > 0 && a[0] == b[0] {
      assert a == [a[0]] + a[1..] && b == [b[0]] + b[1..];
      LessTotal(a[1..], b[1..]);
    }
  }

  lemma LessAsymmetric(a: string, b: string)
    requires Less(a, b)
    ensures !Less(b, a)
  {
    if Less(b, a) {
      LessTransitive(a, b, a);
      LessIrreflexive(a);
    }
  }

  /** The textbook lexicographic order: `a` is a proper prefix of `b`, or the
      two agree up to a position where `a` has the smaller character. */
  predicate LexBefore(a: string, b: string)
  {
    a < b || exists k :: 0 <= k < |a| && k < |b| && a[..k] == b[..k] && a[k] < b[k]
  }

  /** A common first character does not change the lexicographic order. */
  lemma LexSameHead(c: char, a: string, b: string)
    ensures LexBefore([c] + a, [c] + b) <==> LexBefore(a, b)
  {
    var a', b' := [c] + a, [c] + b;
    assert a' < b' <==> a < b by {
      assert a'[1..] == a && b'[1..] == b;
    }
    if k :| 0 <= k < |a| && k < |b| && a[..k] == b[..k] && a[k] < b[k] {
      assert a'[..k + 1] == [c] + a[..k] && b'[..k + 1] == [c] + b[..k];
      assert a'[k + 1] == a[k] && b'[k + 1] == b[k];
    }
    if k :| 0 <= k < |a'| && k < |b'| && a'[..k] == b'[..k] && a'[k] < b'[k] {
      assert k != 0;
      assert a'[..k][1..] == a[..k - 1] && b'[..k][1..] == b[..k - 1];
      assert a'[k] == a[k - 1] && b'[k] == b[k - 1];
    }
  }

  /** Different first characters decide the lexicographic order. */
  lemma LexDifferentHeads(a: string, b: string)
    requires |a| > 0 && |b| > 0 && a[0] != b[0]
    ensures LexBefore(a, b) <==> a[0] < b[0]
  {
    forall k | 0 < k < |a| && k < |b| ensures a[..k] != b[..k] {
      assert a[..k][0] == a[0] && b[..k][0] == b[0];
    }
    assert a[..0] == b[..0];
  }

  /** Less is exactly the lexicographic order. */
  lemma {:induction false} LessIsLexicographic(a: string, b: string)
    ensures Less(a, b) <==> LexBefore(a, b)
    decreases |a|
  {
    if |a| > 0 && |b| > 0 {
      if a[0] == b[0] {
        LessIsLexicographic(a[1..], b[1..]);
        LexSameHead(a[0], a[1..], b[1..]);
        assert a == [a[0]] + a[1..] && b == [b[0]] + b[1..];
      } else {
        LexDifferentHeads(a, b);
      }
    } else if |a| == 0 && |b| > 0 {
      assert a < b;
    }
  }
}
