/**
 Greatest common divisors: the `gcd` of two counts and `_gcd_of_seq` over
 all the counts of a rule.
 */
module Gcd {

  /** `d` divides `a`. Only positive divisors are considered. */
  ghost predicate Divides(d: int, a: int) {
    d > 0 && a % d == 0
  }

  /** `math.gcd` on natural numbers, by Euclid's algorithm. */
  function Gcd(a: nat, b: nat): nat
    decreases b
  {
    if b == 0 then a else Gcd(b, a % b)
  }

  /** `_gcd_of_seq`: a single number is its own gcd; otherwise the gcd is
      folded from the left. */
  function GcdSeq(s: seq<nat>): nat
    requires |s| > 0
  {
    if |s| == 1 then s[0] else FoldGcd(s[0], s[1..])
  }

  /** `reduce(gcd, rest, acc)`. */
  function FoldGcd(acc: nat, rest: seq<nat>): nat
    decreases |rest|
  {
    if |rest| == 0 then acc else FoldGcd(Gcd(acc, rest[0]), rest[1..])
  }

  lemma MultipleMod(d: int, m: int)
    requires d > 0
    ensures (d * m) % d == 0
  {
    var q, r := (d * m) / d, (d * m) % d;
    var z := m - q;
    assert d * z == r by {
      assert d * m == d * q + r;
      assert d * z == d * m - d * q;
    }
    SmallMultiple(d, z);
  }

  /** The only multiple of `d` in `[0, d)` is zero. */
  lemma SmallMultiple(d: int, z: int)
    requires d > 0
    ensures 0 <= d * z < d ==> z == 0
  {
    if z >= 1 {
      MulNonneg(d, z - 1);
      assert d * z == d * (z - 1) + d;
    } else if z <= -1 {
      MulNonneg(d, -z - 1);
      assert d * z == -(d * (-z - 1)) - d;
    }
  }

  lemma MulNonneg(a: int, b: int)
    requires a >= 0 && b >= 0
    ensures a * b >= 0
  {
  }

  /** A common divisor of `x` and `y` divides `q * x + y`. */
  lemma DividesCombination(d: int, x: int, y: int, q: int)
    requires Divides(d, x) && Divides(d, y)
    ensures Divides(d, q * x + y)
  {
    var a, b := x / d, y / d;
    assert x == d * a && y == d * b;
    assert q * x + y == d * (q * a + b);
    MultipleMod(d, q * a + b);
  }

  /** `Gcd(a, b)` is a positive common divisor of `a` and `b`, unless both are
      zero. */
  lemma {:induction false} GcdDivides(a: nat, b: nat)
    requires a > 0 || b > 0
    ensures Divides(Gcd(a, b), a) && Divides(Gcd(a, b), b)
    decreases b
  {
    if b == 0 {
      assert a % a == 0 by { MultipleMod(a, 1); }
    } else {
      var r := a % b;
      GcdDivides(b, r);
      var g := Gcd(b, r);
      DividesCombination(g, b, r, a / b);
      assert a == (a / b) * b + r;
    }
  }

  /** Every common divisor of `a` and `b` divides `Gcd(a, b)`. */
  lemma {:induction false} GcdGreatest(a: nat, b: nat, d: int)
    requires Divides(d, a) && Divides(d, b)
    ensures Divides(d, Gcd(a, b))
    decreases b
  {
    if b != 0 {
      DividesCombination(d, b, a, -(a / b));
      assert -(a / b) * b + a == a % b;
      GcdGreatest(b, a % b, d);
    }
  }

  /** The folded gcd divides the accumulator and every remaining number, and
      every common divisor of them divides it. */
  lemma {:induction false} FoldGcdFacts(acc: nat, rest: seq<nat>)
    requires acc > 0
    ensures Divides(FoldGcd(acc, rest), acc)
    ensures forall k :: 0 <= k < |rest| ==> Divides(FoldGcd(acc, rest), rest[k])
    ensures forall d :: Divides(d, acc) && (forall k :: 0 <= k < |rest| ==> Divides(d, rest[k])) ==> Divides(d, FoldGcd(acc, rest))
    decreases |rest|
  {
    if |rest| > 0 {
      var g := Gcd(acc, rest[0]);
      GcdDivides(acc, rest[0]);
      FoldGcdFacts(g, rest[1..]);
      var f := FoldGcd(acc, rest);
      assert f == FoldGcd(g, rest[1..]);
      DividesTrans(f, g, acc);
      DividesTrans(f, g, rest[0]);
      forall k | 1 <= k < |rest|
        ensures Divides(f, rest[k])
      {
        assert rest[k] == rest[1..][k - 1];
      }
      forall d | Divides(d, acc) && (forall k :: 0 <= k < |rest| ==> Divides(d, rest[k]))
        ensures Divides(d, f)
      {
        GcdGreatest(acc, rest[0], d);
        assert forall k :: 0 <= k < |rest| - 1 ==> rest[1..][k] == rest[k + 1];
      }
    }
  }

  lemma DividesTrans(a: int, b: int, c: int)
    requires Divides(a, b) && Divides(b, c)
    ensures Divides(a, c)
  {
    var x, y := b / a, c / b;
    assert b == a * x && c == b * y;
    assert c == a * (x * y);
    MultipleMod(a, x * y);
  }

  /** For positive numbers, `_gcd_of_seq` is a positive common divisor that
      every common divisor divides: the greatest common divisor. */
  lemma GcdSeqFacts(s: seq<nat>)
    requires |s| > 0 && forall k :: 0 <= k < |s| ==> s[k] > 0
    ensures GcdSeq(s) > 0
    ensures forall k :: 0 <= k < |s| ==> Divides(GcdSeq(s), s[k])
    ensures forall d :: (forall k :: 0 <= k < |s| ==> Divides(d, s[k])) ==> Divides(d, GcdSeq(s))
  {
    if |s| == 1 {
      assert s[0] % s[0] == 0 by { MultipleMod(s[0], 1); }
    } else {
      FoldGcdFacts(s[0], s[1..]);
      forall k | 1 <= k < |s|
        ensures Divides(GcdSeq(s), s[k])
      {
        assert s[k] == s[1..][k - 1];
      }
      forall d | forall k :: 0 <= k < |s| ==> Divides(d, s[k])
        ensures Divides(d, GcdSeq(s))
      {
        assert forall k :: 0 <= k < |s| - 1 ==> s[1..][k] == s[k + 1];
      }
    }
  }
}
