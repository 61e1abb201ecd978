/** The ordering `std::string::operator<` puts on strings: lexicographic
    comparison character by character, a proper prefix coming first.

    Characters are compared by code point. `std::string::operator<` compares
    bytes as `unsigned char`; for strings that are valid UTF-8 the two orders
    agree, because UTF-8 preserves code point order. */
module LexOrder {

  /** `a` sorts strictly before `b`. */
  predicate LexLess(a: string, b: string)
    decreases |a|
  {
    if a == [] then b != []
    else b != [] && (a[0] < b[0] || (a[0] == b[0] && LexLess(a[1..], b[1..])))
  }

  /** Reference definition: `a` and `b` agree on their first `k` characters,
      and there `a` either ends while `b` goes on, or has the smaller character. */
  ghost predicate FirstDifferenceAt(a: string, b: string, k: nat) {
    && k <= |a| && k <= |b|
    && a[..k] == b[..k]
    && ((k == |a| && k < |b|) || (k < |a| && k < |b| && a[k] < b[k]))
  }

  lemma {:induction false} LexLessIrreflexive(a: string)
    ensures !LexLess(a, a)
    decreases |a|
  {
    if a != [] {
      LexLessIrreflexive(a[1..]);
    }
  }

  lemma {:induction false} LexLessTransitive(a: string, b: string, c: string)
    requires LexLess(a, b) && LexLess(b, c)
    ensures LexLess(a, c)
    decreases |a|
  {
    if a != [] && a[0] == b[0] && b[0] == c[0] {
      LexLessTransitive(a[1..], b[1..], c[1..]);
    }
  }

  /** Any two strings are comparable: exactly one of `a < b`, `a == b`, `b < a`. */
  lemma {:induction false} LexLessTrichotomous(a: string, b: string)
    ensures LexLess(a, b) || a == b || LexLess(b, a)
    ensures !(LexLess(a, b) && LexLess(b, a))
    decreases |a|
  {
    if a != [] && b != [] && a[0] == b[0] {
      LexLessTrichotomous(a[1..], b[1..]);
      if a[1..] == b[1..] {
        assert a == [a[0]] + a[1..] && b == [b[0]] + b[1..];
      }
    }
  }

  /** The recursive comparison agrees with the first-difference definition,
      in both directions. */
  lemma {:induction false} LexLessIffFirstDifference(a: string, b: string)
    ensures LexLess(a, b) <==> exists k: nat :: FirstDifferenceAt(a, b, k)
    decreases |a|
  {
    if LexLess(a, b) {
      var k := FirstDifferenceOf(a, b);
      assert FirstDifferenceAt(a, b, k);
    }
    if k: nat :| FirstDifferenceAt(a, b, k) {
      FirstDifferenceIsLess(a, b, k);
    }
  }

  lemma {:induction false} FirstDifferenceOf(a: string, b: string) returns (k: nat)
    requires LexLess(a, b)
    ensures FirstDifferenceAt(a, b, k)
    decreases |a|
  {
    if a == [] || a[0] < b[0] {
      k := 0;
    } else {
      var j := FirstDifferenceOf(a[1..], b[1..]);
      k := j + 1;
      assert a[..k] == [a[0]] + a[1..][..j];
      assert b[..k] == [b[0]] + b[1..][..j];
    }
  }

  lemma {:induction false} FirstDifferenceIsLess(a: string, b: string, k: nat)
    requires FirstDifferenceAt(a, b, k)
    ensures LexLess(a, b)
    decreases |a|
  {
    if k > 0 {
      assert a[0] == a[..k][0] == b[..k][0] == b[0];
      assert a[1..][..k - 1] == a[..k][1..];
      assert b[1..][..k - 1] == b[..k][1..];
      FirstDifferenceIsLess(a[1..], b[1..], k - 1);
    }
  }
}
