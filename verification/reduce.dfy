/**
 The weight reducer: the options of a rule are grouped by value in order of
 first occurrence and each distinct option is repeated its count divided by
 the gcd of all the rule's counts.
 */
module Reduce {
  import opened Gcd

  /** `[x] * m`. */
  function Repeat(x: string, m: nat): (r: seq<string>)
    ensures |r| == m && forall k :: 0 <= k < m ==> r[k] == x
  {
    if m == 0 then [] else [x] + Repeat(x, m - 1)
  }

  /** `s` without any copy of `x`. */
  function RemoveAll(s: seq<string>, x: string): (r: seq<string>)
    ensures |r| <= |s|
    decreases |s|
  {
    if |s| == 0 then [] else (if s[0] == x then [] else [s[0]]) + RemoveAll(s[1..], x)
  }

  lemma {:induction false} RemoveAllMembers(s: seq<string>, x: string)
    ensures forall y :: y in RemoveAll(s, x) <==> y in s && y != x
    decreases |s|
  {
    if |s| > 0 {
      RemoveAllMembers(s[1..], x);
      assert s == [s[0]] + s[1..];
    }
  }

  /** No value occurs twice. */
  predicate NoDuplicates(s: seq<string>) {
    forall a, b :: 0 <= a < b < |s| ==> s[a] != s[b]
  }

  /** The distinct values of `s` in order of first occurrence: the keys of the
      `counts` dictionary. */
  function Distinct(s: seq<string>): (r: seq<string>)
    ensures |r| <= |s|
    decreases |s|
  {
    if |s| == 0 then [] else [s[0]] + Distinct(RemoveAll(s[1..], s[0]))
  }

  /** The first occurrences are exactly the values of `s`, once each. */
  lemma {:induction false} DistinctFacts(s: seq<string>)
    ensures forall y :: y in Distinct(s) <==> y in s
    ensures NoDuplicates(Distinct(s))
    decreases |s|
  {
    if |s| > 0 {
      var t := RemoveAll(s[1..], s[0]);
      RemoveAllMembers(s[1..], s[0]);
      DistinctFacts(t);
      var rest := Distinct(t);
      assert Distinct(s) == [s[0]] + rest;
      assert forall k :: 0 <= k < |rest| ==> rest[k] in rest;
      assert s == [s[0]] + s[1..];
    }
  }

  /** The count of each key in `opts`: `counts.values()`. */
  function Counts(keys: seq<string>, opts: seq<string>): seq<nat> {
    seq(|keys|, k requires 0 <= k < |keys| => multiset(opts)[keys[k]])
  }

  /** `new_options`: each key repeated its count divided by `g`. */
  function Expand(keys: seq<string>, opts: seq<string>, g: nat): seq<string>
    requires g > 0
    decreases |keys|
  {
    if |keys| == 0 then [] else Repeat(keys[0], multiset(opts)[keys[0]] / g) + Expand(keys[1..], opts, g)
  }

  /** The gcd of the counts of a rule's options. */
  function Factor(opts: seq<string>): (g: nat)
    requires |opts| > 0
    ensures g > 0
  {
    var keys := Distinct(opts);
    DistinctFacts(opts);
    CountsPositive(keys, opts);
    GcdSeqFacts(Counts(keys, opts));
    GcdSeq(Counts(keys, opts))
  }

  lemma CountsPositive(keys: seq<string>, opts: seq<string>)
    requires forall y :: y in keys ==> y in opts
    requires |opts| > 0 ==> |keys| > 0
    ensures forall k :: 0 <= k < |Counts(keys, opts)| ==> Counts(keys, opts)[k] > 0
    ensures |opts| > 0 ==> |Counts(keys, opts)| > 0
  {
    forall k | 0 <= k < |keys|
      ensures multiset(opts)[keys[k]] > 0
    {
      assert keys[k] in keys;
    }
  }

  /** The reduction of one rule's options. */
  function ReduceOptions(opts: seq<string>): seq<string> {
    if |opts| <= 1 then opts else Expand(Distinct(opts), opts, Factor(opts))
  }

  /** The reduction applied to every rule of a grammar. */
  function ReduceGrammar(g: map<string, seq<string>>): (r: map<string, seq<string>>)
    ensures r.Keys == g.Keys
    ensures forall k :: k in g ==> r[k] == ReduceOptions(g[k])
  {
    map k | k in g :: ReduceOptions(g[k])
  }

  //
  // Properties
  //

  lemma RepeatMultiset(x: string, m: nat)
    ensures forall y :: multiset(Repeat(x, m))[y] == if y == x then m else 0
  {
    var r := Repeat(x, m);
    assert r == seq(m, _ => x);
    if m > 0 {
      RepeatMultiset(x, m - 1);
      assert r == [x] + Repeat(x, m - 1);
    }
  }

  /** Each key is kept with its count divided by `g`; nothing else appears. */
  lemma {:induction false} ExpandMultiset(keys: seq<string>, opts: seq<string>, g: nat)
    requires g > 0 && NoDuplicates(keys)
    ensures forall x :: multiset(Expand(keys, opts, g))[x] == if x in keys then multiset(opts)[x] / g else 0
    decreases |keys|
  {
    if |keys| > 0 {
      var rest := keys[1..];
      QuotientNat(multiset(opts)[keys[0]], g);
      var c := multiset(opts)[keys[0]] / g;
      assert NoDuplicates(rest);
      ExpandMultiset(rest, opts, g);
      RepeatMultiset(keys[0], c);
      assert keys[0] !in rest by {
        assert forall k :: 0 <= k < |rest| ==> rest[k] == keys[k + 1];
      }
      assert Expand(keys, opts, g) == Repeat(keys[0], c) + Expand(rest, opts, g);
      assert multiset(Expand(keys, opts, g)) == multiset(Repeat(keys[0], c)) + multiset(Expand(rest, opts, g));
      forall x
        ensures x in keys <==> x == keys[0] || x in rest
      {
        assert keys == [keys[0]] + rest;
      }
    }
  }

  lemma QuotientNat(a: nat, g: nat)
    requires g > 0
    ensures a / g >= 0
  {
  }

  /** The factor divides the count of every option, and every common divisor
      of the counts divides it: it is their greatest common divisor. */
  lemma FactorIsGcd(opts: seq<string>)
    requires |opts| > 0
    ensures forall x :: x in opts ==> Divides(Factor(opts), multiset(opts)[x])
    ensures forall d :: (forall x :: x in opts ==> Divides(d, multiset(opts)[x])) ==> Divides(d, Factor(opts))
  {
    FactorDivides(opts);
    forall d | forall x :: x in opts ==> Divides(d, multiset(opts)[x])
      ensures Divides(d, Factor(opts))
    {
      FactorGreatest(opts, d);
    }
  }

  lemma FactorDivides(opts: seq<string>)
    requires |opts| > 0
    ensures forall x :: x in opts ==> Divides(Factor(opts), multiset(opts)[x])
  {
    var keys := Distinct(opts);
    DistinctFacts(opts);
    var cs := Counts(keys, opts);
    CountsPositive(keys, opts);
    GcdSeqFacts(cs);
    forall x | x in opts
      ensures Divides(Factor(opts), multiset(opts)[x])
    {
      assert x in keys;
      var k :| 0 <= k < |keys| && keys[k] == x;
      assert cs[k] == multiset(opts)[x];
    }
  }

  lemma FactorGreatest(opts: seq<string>, d: int)
    requires |opts| > 0
    requires forall x :: x in opts ==> Divides(d, multiset(opts)[x])
    ensures Divides(d, Factor(opts))
  {
    var keys := Distinct(opts);
    DistinctFacts(opts);
    var cs := Counts(keys, opts);
    CountsPositive(keys, opts);
    GcdSeqFacts(cs);
    forall k | 0 <= k < |cs|
      ensures Divides(d, cs[k])
    {
      assert keys[k] in keys;
    }
  }

  lemma DivExact(c: nat, g: nat)
    requires Divides(g, c)
    ensures (c / g) * g == c
  {
  }

  /** A rule with more than one option keeps every option with its count
      divided by the gcd of the counts, so each count is the reduced count
      times the same factor. */
  lemma ReduceScalesCounts(opts: seq<string>)
    requires |opts| > 1
    ensures forall x :: multiset(ReduceOptions(opts))[x] * Factor(opts) == multiset(opts)[x]
  {
    var keys := Distinct(opts);
    DistinctFacts(opts);
    var g := Factor(opts);
    assert ReduceOptions(opts) == Expand(keys, opts, g);
    FactorDivides(opts);
    ExpandScales(keys, opts, g);
  }

  /** Expanding every option by an exact divisor of its count scales every
      count down by that divisor. */
  lemma ExpandScales(keys: seq<string>, opts: seq<string>, g: nat)
    requires g > 0 && NoDuplicates(keys)
    requires forall x :: x in opts ==> x in keys && Divides(g, multiset(opts)[x])
    ensures forall x :: multiset(Expand(keys, opts, g))[x] * g == multiset(opts)[x]
  {
    var r := Expand(keys, opts, g);
    ExpandMultiset(keys, opts, g);
    forall x
      ensures multiset(r)[x] * g == multiset(opts)[x]
    {
      var c := multiset(opts)[x];
      if x in opts {
        DivExact(c, g);
      } else if x in keys {
        assert c == 0;
      }
    }
  }

  /** Reduction keeps exactly the options the rule had. */
  lemma ReduceKeepsOptions(opts: seq<string>)
    ensures forall x :: x in ReduceOptions(opts) <==> x in opts
  {
    if |opts| > 1 {
      ReduceScalesCounts(opts);
      var r, g := ReduceOptions(opts), Factor(opts);
      forall x
        ensures x in r <==> x in opts
      {
        assert multiset(r)[x] * g == multiset(opts)[x];
        assert x in r <==> multiset(r)[x] > 0;
        assert x in opts <==> multiset(opts)[x] > 0;
        MulNonneg(multiset(r)[x], g);
        assert multiset(r)[x] > 0 ==> multiset(r)[x] * g >= g by {
          if multiset(r)[x] > 0 {
            MulNonneg(multiset(r)[x] - 1, g);
            assert multiset(r)[x] * g == (multiset(r)[x] - 1) * g + g;
          }
        }
      }
    }
  }

  /** Every pair of values occurs in the same ratio in both multisets. */
  ghost predicate SameRatios(a: multiset<string>, b: multiset<string>) {
    forall x, y :: a[x] * b[y] == a[y] * b[x]
  }

  /** Reduction preserves every pairwise ratio of counts. */
  lemma ReduceKeepsRatios(opts: seq<string>)
    ensures SameRatios(multiset(ReduceOptions(opts)), multiset(opts))
  {
    if |opts| > 1 {
      ReduceScalesCounts(opts);
      RatiosOfScaled(multiset(ReduceOptions(opts)), multiset(opts), Factor(opts));
    } else {
      ReduceSingle(opts);
      RatiosOfScaled(multiset(opts), multiset(opts), 1);
    }
  }

  /** Counts that are a common multiple of other counts keep their ratios. */
  lemma RatiosOfScaled(small: multiset<string>, big: multiset<string>, g: int)
    requires forall x :: small[x] * g == big[x]
    ensures SameRatios(small, big)
  {
    forall x, y
      ensures small[x] * big[y] == small[y] * big[x]
    {
      Proportional(small[x], small[y], big[x], big[y], g);
    }
  }

  lemma Proportional(a: int, b: int, c: int, d: int, g: int)
    requires a * g == c && b * g == d
    ensures a * d == b * c
  {
    assert a * (b * g) == b * (a * g);
  }

  /** A rule with at most one option is left untouched. */
  lemma ReduceSingle(opts: seq<string>)
    requires |opts| <= 1
    ensures ReduceOptions(opts) == opts
  {
  }

  lemma {:induction false} RemoveAllAppend(a: seq<string>, b: seq<string>, x: string)
    ensures RemoveAll(a + b, x) == RemoveAll(a, x) + RemoveAll(b, x)
    decreases |a|
  {
    if |a| == 0 {
      assert a + b == b;
    } else {
      var h := if a[0] == x then [] else [a[0]];
      assert (a + b)[0] == a[0] && (a + b)[1..] == a[1..] + b;
      RemoveAllAppend(a[1..], b, x);
      calc {
        RemoveAll(a + b, x);
        h + RemoveAll(a[1..] + b, x);
        h + (RemoveAll(a[1..], x) + RemoveAll(b, x));
        (h + RemoveAll(a[1..], x)) + RemoveAll(b, x);
      }
    }
  }

  lemma {:induction false} RemoveAllAbsent(s: seq<string>, x: string)
    ensures x !in s ==> RemoveAll(s, x) == s
    decreases |s|
  {
    if |s| > 0 {
      RemoveAllAbsent(s[1..], x);
      assert s == [s[0]] + s[1..];
    }
  }

  lemma {:induction false} RemoveAllRepeat(x: string, m: nat)
    ensures RemoveAll(Repeat(x, m), x) == []
    decreases m
  {
    if m > 0 {
      RemoveAllRepeat(x, m - 1);
      assert Repeat(x, m)[1..] == Repeat(x, m - 1);
    }
  }

  lemma {:induction false} ExpandElements(keys: seq<string>, opts: seq<string>, g: nat)
    requires g > 0
    ensures forall y :: y in Expand(keys, opts, g) ==> y in keys
    decreases |keys|
  {
    if |keys| > 0 {
      ExpandElements(keys[1..], opts, g);
    }
  }

  /** When every key is repeated at least once, the expansion lists the keys
      in their own order. */
  lemma {:induction false} DistinctOfExpand(keys: seq<string>, opts: seq<string>, g: nat)
    requires g > 0 && NoDuplicates(keys)
    requires forall k :: 0 <= k < |keys| ==> multiset(opts)[keys[k]] / g >= 1
    ensures Distinct(Expand(keys, opts, g)) == keys
    decreases |keys|
  {
    if |keys| > 0 {
      var k0, rest := keys[0], keys[1..];
      var m := multiset(opts)[k0] / g;
      var tail := Expand(rest, opts, g);
      var e := Expand(keys, opts, g);
      assert NoDuplicates(rest);
      assert forall k :: 0 <= k < |rest| ==> rest[k] == keys[k + 1];
      DistinctOfExpand(rest, opts, g);
      ExpandElements(rest, opts, g);
      assert k0 !in tail;
      assert e == Repeat(k0, m) + tail;
      assert e[0] == k0;
      assert e[1..] == Repeat(k0, m - 1) + tail;
      RemoveAllAppend(Repeat(k0, m - 1), tail, k0);
      RemoveAllRepeat(k0, m - 1);
      RemoveAllAbsent(tail, k0);
      assert RemoveAll(e[1..], k0) == tail;
    }
  }

  lemma DividesLe(d: int, a: int)
    requires Divides(d, a) && a > 0
    ensures d <= a
  {
    var q := a / d;
    assert a == d * q;
    if q <= 0 {
      MulNonneg(d, -q);
    } else {
      MulNonneg(d, q - 1);
      assert a == d * (q - 1) + d;
    }
  }

  /** Every count of a multi-option rule is at least the factor. */
  lemma CountsAtLeastFactor(opts: seq<string>)
    requires |opts| > 0
    ensures forall x :: x in opts ==> multiset(opts)[x] / Factor(opts) >= 1
  {
    var g := Factor(opts);
    FactorDivides(opts);
    forall x | x in opts
      ensures multiset(opts)[x] / g >= 1
    {
      QuotientAtLeastOne(g, multiset(opts)[x]);
    }
  }

  lemma QuotientAtLeastOne(d: int, a: int)
    requires Divides(d, a) && a > 0
    ensures a / d >= 1
  {
    DividesLe(d, a);
  }

  /** Reduction keeps the options in order of first occurrence. */
  lemma ReduceKeepsOrder(opts: seq<string>)
    ensures Distinct(ReduceOptions(opts)) == Distinct(opts)
  {
    if |opts| > 1 {
      var keys := Distinct(opts);
      DistinctFacts(opts);
      CountsAtLeastFactor(opts);
      forall k | 0 <= k < |keys|
        ensures multiset(opts)[keys[k]] / Factor(opts) >= 1
      {
        assert keys[k] in keys;
      }
      DistinctOfExpand(keys, opts, Factor(opts));
    }
  }

  lemma DividesScale(h: int, a: int, g: int)
    requires Divides(h, a) && g > 0
    ensures Divides(h * g, a * g)
  {
    var q := a / h;
    assert a == h * q;
    assert a * g == (h * g) * q;
    MulPositive(h, g);
    MultipleMod(h * g, q);
  }

  lemma MulPositive(a: int, b: int)
    requires a > 0 && b > 0
    ensures a * b > 0
  {
    MulNonneg(a, b - 1);
    assert a * b == a * (b - 1) + a;
  }

  /** After a reduction the counts have no common factor left. */
  lemma ReducedFactorIsOne(opts: seq<string>)
    requires |opts| > 1
    ensures |ReduceOptions(opts)| > 0 && Factor(ReduceOptions(opts)) == 1
  {
    var r, g := ReduceOptions(opts), Factor(opts);
    ReduceKeepsOptions(opts);
    assert opts[0] in r;
    var h := Factor(r);
    ScaledFactorDivides(opts);
    OnlyUnitScales(h, g);
  }

  /** The factor of the reduced rule, scaled back up, divides every original
      count, hence the original factor. */
  lemma ScaledFactorDivides(opts: seq<string>)
    requires |opts| > 1
    ensures |ReduceOptions(opts)| > 0 && Divides(Factor(ReduceOptions(opts)) * Factor(opts), Factor(opts))
  {
    var r, g := ReduceOptions(opts), Factor(opts);
    ReduceScalesCounts(opts);
    ReduceKeepsOptions(opts);
    assert opts[0] in r;
    var h := Factor(r);
    FactorDivides(r);
    var mr, mo := multiset(r), multiset(opts);
    assert forall x :: x in opts ==> x in r;
    ScaledAllDivide(opts, mr, mo, h, g);
    FactorGreatest(opts, h * g);
  }

  lemma ScaledAllDivide(xs: seq<string>, mr: multiset<string>, mo: multiset<string>, h: int, g: int)
    requires g > 0
    requires forall x :: x in xs ==> Divides(h, mr[x]) && mr[x] * g == mo[x]
    ensures forall x :: x in xs ==> Divides(h * g, mo[x])
  {
    forall x | x in xs
      ensures Divides(h * g, mo[x])
    {
      ScaledDivides(h, mr[x], g, mo[x]);
    }
  }

  lemma ScaledDivides(h: int, a: int, g: int, b: int)
    requires Divides(h, a) && g > 0 && a * g == b
    ensures Divides(h * g, b)
  {
    DividesScale(h, a, g);
  }

  lemma OnlyUnitScales(h: int, g: int)
    requires h > 0 && g > 0 && Divides(h * g, g)
    ensures h == 1
  {
    DividesLe(h * g, g);
    ScaleGrows(h, g);
  }

  lemma ScaleGrows(h: int, g: int)
    requires h > 0 && g > 0
    ensures h > 1 ==> h * g > g
  {
    if h > 1 {
      MulPositive(h - 1, g);
      assert h * g == (h - 1) * g + g;
    }
  }

  /** Expansions with the same reduced count for every key agree. */
  lemma {:induction false} ExpandSameCounts(keys: seq<string>, a: seq<string>, ga: nat, b: seq<string>, gb: nat)
    requires ga > 0 && gb > 0
    requires forall k :: 0 <= k < |keys| ==> multiset(a)[keys[k]] / ga == multiset(b)[keys[k]] / gb
    ensures Expand(keys, a, ga) == Expand(keys, b, gb)
    decreases |keys|
  {
    if |keys| > 0 {
      ExpandSameCounts(keys[1..], a, ga, b, gb);
    }
  }

  /** Reducing a reduced rule changes nothing. */
  lemma ReduceIdempotent(opts: seq<string>)
    ensures ReduceOptions(ReduceOptions(opts)) == ReduceOptions(opts)
  {
    var r := ReduceOptions(opts);
    if |opts| > 1 && |r| > 1 {
      var keys, g := Distinct(opts), Factor(opts);
      DistinctFacts(opts);
      ReduceKeepsOrder(opts);
      ReducedFactorIsOne(opts);
      ExpandMultiset(keys, opts, g);
      assert r == Expand(keys, opts, g);
      forall k | 0 <= k < |keys|
        ensures multiset(r)[keys[k]] / 1 == multiset(opts)[keys[k]] / g
      {
        assert keys[k] in keys;
      }
      ExpandSameCounts(keys, r, 1, opts, g);
      assert ReduceOptions(r) == Expand(Distinct(r), r, Factor(r));
    }
  }

  /** Reducing a grammar keeps, in every rule, the same options in the same
      first-occurrence order and with the same pairwise ratios; a rule that
      had more than one option is left with counts whose gcd is 1. */
  lemma ReduceGrammarKeepsRules(g: map<string, seq<string>>)
    ensures forall k :: k in g ==> k in ReduceGrammar(g) && forall x :: x in ReduceGrammar(g)[k] <==> x in g[k]
    ensures forall k :: k in g ==> Distinct(ReduceGrammar(g)[k]) == Distinct(g[k])
    ensures forall k :: k in g ==> SameRatios(multiset(ReduceGrammar(g)[k]), multiset(g[k]))
    ensures forall k :: k in g && |g[k]| > 1 ==> |ReduceGrammar(g)[k]| > 0 && Factor(ReduceGrammar(g)[k]) == 1
  {
    var r := ReduceGrammar(g);
    forall k | k in g
      ensures (forall x :: x in r[k] <==> x in g[k]) && Distinct(r[k]) == Distinct(g[k])
      ensures SameRatios(multiset(r[k]), multiset(g[k]))
      ensures |g[k]| > 1 ==> |r[k]| > 0 && Factor(r[k]) == 1
    {
      ReduceKeepsOptions(g[k]);
      ReduceKeepsOrder(g[k]);
      ReduceKeepsRatios(g[k]);
      if |g[k]| > 1 {
        ReducedFactorIsOne(g[k]);
      }
    }
  }

  /** Reducing a reduced grammar changes nothing. */
  lemma ReduceGrammarIdempotent(g: map<string, seq<string>>)
    ensures ReduceGrammar(ReduceGrammar(g)) == ReduceGrammar(g)
  {
    var r := ReduceGrammar(g);
    forall k | k in g
      ensures ReduceOptions(r[k]) == r[k]
    {
      ReduceIdempotent(g[k]);
    }
  }

  //
  // The loops of the reducer
  //

  /** First occurrences grow by one value at a time. */
  lemma {:induction false} DistinctSnoc(s: seq<string>, x: string)
    ensures Distinct(s + [x]) == if x in s then Distinct(s) else Distinct(s) + [x]
    decreases |s|
  {
    if |s| == 0 {
      assert RemoveAll([], x) == [];
      assert [] + [x] == [x];
    } else {
      var t := RemoveAll(s[1..], s[0]);
      assert (s + [x])[0] == s[0] && (s + [x])[1..] == s[1..] + [x];
      RemoveAllAppend(s[1..], [x], s[0]);
      assert Distinct(s + [x]) == [s[0]] + Distinct(t + RemoveAll([x], s[0]));
      assert Distinct(s) == [s[0]] + Distinct(t);
      if x == s[0] {
        assert RemoveAll([x], s[0]) == [];
        assert t + [] == t;
      } else {
        assert RemoveAll([x], s[0]) == [x] by {
          assert [x][1..] == [];
        }
        DistinctSnoc(t, x);
        RemoveAllMembers(s[1..], s[0]);
        assert x in t <==> x in s;
        if x !in s {
          assert [s[0]] + (Distinct(t) + [x]) == ([s[0]] + Distinct(t)) + [x];
        }
      }
    }
  }


  /** `counts[option] += 1` for every option: the keys in order of first
      occurrence and the number of copies of each. */
  method CountOptions(opts: seq<string>) returns (keys: seq<string>, counts: map<string, nat>)
    ensures keys == Distinct(opts)
    ensures forall y :: y in counts <==> y in opts
    ensures forall y :: y in counts ==> counts[y] == multiset(opts)[y]
  {
    keys, counts := [], map[];
    var i := 0;
    while i < |opts|
      invariant i <= |opts|
      invariant keys == Distinct(opts[..i])
      invariant Tallies(counts, opts[..i])
    {
      var x := opts[i];
      assert opts[..i + 1] == opts[..i] + [x];
      DistinctSnoc(opts[..i], x);
      TallyStep(counts, opts[..i], x);
      if x !in counts {
        keys := keys + [x];
      }
      counts := Tally(counts, x);
      i := i + 1;
    }
    assert opts[..i] == opts;
  }

  /** `counts` holds exactly the values of `s`, each with its number of
      copies. */
  ghost predicate Tallies(counts: map<string, nat>, s: seq<string>) {
    (forall y :: y in counts <==> y in s)
    && (forall y :: y in counts ==> counts[y] == multiset(s)[y])
  }

  /** `counts[x] += 1` on a `defaultdict(int)`. */
  function Tally(counts: map<string, nat>, x: string): (r: map<string, nat>)
    ensures r.Keys == counts.Keys + {x}
  {
    if x in counts then counts[x := counts[x] + 1] else counts[x := 1]
  }

  lemma TallyStep(counts: map<string, nat>, s: seq<string>, x: string)
    requires Tallies(counts, s)
    ensures Tallies(Tally(counts, x), s + [x])
    ensures x in counts <==> x in s
  {
    var r := Tally(counts, x);
    assert multiset(s + [x]) == multiset(s) + multiset{x};
    forall y
      ensures y in r <==> y in s + [x]
    {
      assert y in s + [x] <==> y in s || y == x;
    }
  }

  /** `reduce(gcd, counts)` from the first count on. */
  method GcdOfCounts(cs: seq<nat>) returns (g: nat)
    requires |cs| > 0
    ensures g == GcdSeq(cs)
  {
    g := cs[0];
    var k := 1;
    while k < |cs|
      invariant 1 <= k <= |cs|
      invariant FoldGcd(g, cs[k..]) == FoldGcd(cs[0], cs[1..])
    {
      assert cs[k..][1..] == cs[k + 1..];
      g := Gcd.Gcd(g, cs[k]);
      k := k + 1;
    }
  }

  /** The body of the reducer for one rule: rules with more than one option
      are rebuilt from the counts, each option repeated its count divided by
      the gcd of the counts. */
  method ReduceRule(opts: seq<string>) returns (r: seq<string>)
    ensures r == ReduceOptions(opts)
  {
    if |opts| <= 1 {
      return opts;
    }
    var keys, counts := CountOptions(opts);
    var g := FactorOfCounts(opts, keys, counts);
    DistinctFacts(opts);
    r := ExpandKeys(opts, keys, counts, g);
  }

  /** The gcd of `counts.values()`, taken in key order. */
  method FactorOfCounts(opts: seq<string>, keys: seq<string>, counts: map<string, nat>) returns (g: nat)
    requires |opts| > 0 && keys == Distinct(opts)
    requires forall y :: y in counts <==> y in opts
    requires forall y :: y in counts ==> counts[y] == multiset(opts)[y]
    ensures g == Factor(opts)
  {
    DistinctFacts(opts);
    assert opts[0] in keys;
    var cs := seq(|keys|, k requires 0 <= k < |keys| => counts[keys[k]]);
    CountsMatch(opts, keys, counts, cs);
    g := GcdOfCounts(cs);
  }

  /** `new_options`: each key in turn, repeated its count divided by `g`. */
  method ExpandKeys(opts: seq<string>, keys: seq<string>, counts: map<string, nat>, g: nat) returns (r: seq<string>)
    requires g > 0
    requires forall y :: y in keys ==> y in counts && counts[y] == multiset(opts)[y]
    ensures r == Expand(keys, opts, g)
  {
    r := [];
    var k := 0;
    while k < |keys|
      invariant k <= |keys|
      invariant r + Expand(keys[k..], opts, g) == Expand(keys, opts, g)
    {
      assert keys[k] in keys;
      ExpandStep(keys, opts, g, k, r);
      r := r + Repeat(keys[k], counts[keys[k]] / g);
      k := k + 1;
    }
    assert keys[k..] == [];
    assert r + [] == r;
  }


  lemma CountsMatch(opts: seq<string>, keys: seq<string>, counts: map<string, nat>, cs: seq<nat>)
    requires keys == Distinct(opts)
    requires forall y :: y in counts <==> y in opts
    requires forall y :: y in counts ==> counts[y] == multiset(opts)[y]
    requires |cs| == |keys| && forall k :: 0 <= k < |keys| ==> keys[k] in counts && cs[k] == counts[keys[k]]
    ensures cs == Counts(keys, opts)
  {
  }

  /** Emitting the next key's copies moves one key from the pending
      expansion to the output. */
  lemma ExpandStep(keys: seq<string>, opts: seq<string>, g: nat, k: nat, r: seq<string>)
    requires g > 0 && k < |keys|
    ensures r + Expand(keys[k..], opts, g) == (r + Repeat(keys[k], multiset(opts)[keys[k]] / g)) + Expand(keys[k + 1..], opts, g)
  {
    assert keys[k..][1..] == keys[k + 1..];
  }
}
