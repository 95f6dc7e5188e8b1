/** The order of Rust strings: by code point, a proper prefix first. */
module Ordering {

  predicate Below(a: string, b: string) {
    if b == "" then false
    else if a == "" then true
    else if a[0] != b[0] then a[0] < b[0]
    else Below(a[1..], b[1..])
  }

  lemma {:induction false} BelowIrreflexive(a: string)
    ensures !Below(a, a)
  {
    if a != "" {
      BelowIrreflexive(a[1..]);
    }
  }

  lemma {:induction false} BelowTransitive(a: string, b: string, c: string)
    requires Below(a, b) && Below(b, c)
    ensures Below(a, c)
  {
    if a != "" && a[0] == b[0] == c[0] {
      BelowTransitive(a[1..], b[1..], c[1..]);
    }
  }

  lemma {:induction false} BelowTotal(a: string, b: string)
    ensures Below(a, b) || a == b || Below(b, a)
  {
    if a != "" && b != "" && a[0] == b[0] {
      BelowTotal(a[1..], b[1..]);
      assert a == [a[0]] + a[1..] && b == [b[0]] + b[1..];
    }
  }

  lemma BelowAsymmetric(a: string, b: string)
    requires Below(a, b)
    ensures !Below(b, a) && a != b
  {
    BelowIrreflexive(a);
    if Below(b, a) {
      BelowTransitive(a, b, a);
    }
  }

  /** `a` and `b` first differ at `i`, and there `a` has the lesser character. */
  predicate LessAt(a: string, b: string, i: nat) {
    i < |a| && i < |b| && a[..i] == b[..i] && a[i] < b[i]
  }

  lemma LessAtAgrees(a: string, b: string, i: nat)
    requires LessAt(a, b, i)
    ensures i == 0 || a[0] == b[0]
  {
    var front, same := a[..i], b[..i];
    assert i == 0 || (front[0] == a[0] && same[0] == b[0]);
  }

  /** The lesser text is a proper prefix of the other, or has the lesser character where they first differ. */
  lemma {:induction false} BelowMeans(a: string, b: string)
    ensures Below(a, b) <==> (a <= b && a != b) || exists i: nat :: LessAt(a, b, i)
  {
    if a != "" && b != "" {
      var c, d := a[1..], b[1..];
      BelowMeans(c, d);
      assert a == [a[0]] + c && b == [b[0]] + d;
      if a[0] == b[0] {
        forall i: nat | LessAt(c, d, i) ensures LessAt(a, b, i + 1) {
          assert a[..i + 1] == [a[0]] + c[..i] && b[..i + 1] == [b[0]] + d[..i];
        }
        forall i: nat | LessAt(a, b, i) ensures i > 0 && LessAt(c, d, i - 1) {
          assert c[..i - 1] == a[..i][1..] && d[..i - 1] == b[..i][1..];
        }
        assert c <= d <==> a <= b;
      } else {
        assert a[0] < b[0] ==> LessAt(a, b, 0);
        forall i: nat | LessAt(a, b, i) ensures i == 0 {
          LessAtAgrees(a, b, i);
        }
      }
    }
  }
}
