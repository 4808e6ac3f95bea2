/**
 Plain string operations the compiler relies on, modelled on Python's `str`
 methods, together with the facts about them that the punctuation codec needs.
 */
module Text {
  import opened Wrappers

  /** Python's `s.replace(needle, sub)` for a non-empty `needle`: scanning left to
      right, every leftmost non-overlapping occurrence of `needle` becomes `sub`. */
  function Replace(s: string, needle: string, sub: string): string
    requires |needle| > 0
    decreases |s|
  {
    if |s| == 0 then ""
    else if |needle| <= |s| && s[..|needle|] == needle then sub + Replace(s[|needle|..], needle, sub)
    else [s[0]] + Replace(s[1..], needle, sub)
  }

  /** Applies `Replace` once per pair, in the order of the pairs, as a Python
      `for needle, sub in pairs: s = s.replace(needle, sub)` loop does. */
  function ReplaceEach(s: string, pairs: seq<(string, string)>): string
    requires forall k :: 0 <= k < |pairs| ==> |pairs[k].0| > 0
    decreases |pairs|
  {
    if |pairs| == 0 then s
    else ReplaceEach(Replace(s, pairs[0].0, pairs[0].1), pairs[1..])
  }

  /** `pat` occurs in `s` starting at index `i`. */
  ghost predicate OccursAt(s: string, pat: string, i: int) {
    0 <= i && i + |pat| <= |s| && s[i..i + |pat|] == pat
  }

  ghost predicate Occurs(s: string, pat: string) {
    exists i :: OccursAt(s, pat, i)
  }

  /** No character of `a` appears in `b`. */
  ghost predicate SharesNoChar(a: string, b: string) {
    forall k :: 0 <= k < |a| ==> a[k] !in b
  }

  /** An occurrence in a suffix is an occurrence in the whole string. */
  lemma OccursShift(s: string, pat: string, k: nat, i: int)
    requires k <= |s|
    ensures OccursAt(s[k..], pat, i) ==> OccursAt(s, pat, k + i)
  {
    if OccursAt(s[k..], pat, i) {
      assert s[k..][i..i + |pat|] == s[k + i..k + i + |pat|];
    }
  }

  lemma OccursInSuffix(s: string, pat: string, k: nat)
    requires k <= |s|
    ensures Occurs(s[k..], pat) ==> Occurs(s, pat)
  {
    forall i | OccursAt(s[k..], pat, i)
      ensures OccursAt(s, pat, k + i)
    {
      OccursShift(s, pat, k, i);
    }
  }

  /** As long as the output of `Replace` shows no character of `sub`, it is a
      verbatim copy of the input. */
  lemma {:induction false} ReplacePrefix(s: string, needle: string, sub: string, m: nat)
    requires |needle| > 0 && |sub| > 0
    requires m <= |Replace(s, needle, sub)|
    ensures (forall j :: 0 <= j < m ==> Replace(s, needle, sub)[j] !in sub) ==>
              m <= |s| && Replace(s, needle, sub)[..m] == s[..m]
    decreases |s|
  {
    if m > 0 {
      var r := Replace(s, needle, sub);
      if |needle| <= |s| && s[..|needle|] == needle {
        assert r[0] == sub[0];
      } else {
        var rest := Replace(s[1..], needle, sub);
        assert r == [s[0]] + rest;
        ReplacePrefix(s[1..], needle, sub, m - 1);
        if forall j :: 0 <= j < m ==> r[j] !in sub {
          forall j | 0 <= j < m - 1
            ensures rest[j] !in sub
          {
            assert rest[j] == r[j + 1];
          }
          assert r[..m] == [s[0]] + rest[..m - 1];
        }
      }
    }
  }

  /** Every occurrence, in the output of `Replace`, of a pattern that shares no
      character with the replacement text was already in the input: `Replace`
      cannot create one. */
  lemma {:induction false} ReplaceKeepsAbsent(s: string, needle: string, sub: string, pat: string)
    requires |needle| > 0 && |sub| > 0 && |pat| > 0
    ensures SharesNoChar(pat, sub) && Occurs(Replace(s, needle, sub), pat) ==> Occurs(s, pat)
    decreases |s|
  {
    var r := Replace(s, needle, sub);
    if |s| > 0 {
      if |needle| <= |s| && s[..|needle|] == needle {
        var rest := Replace(s[|needle|..], needle, sub);
        OccursInSuffix(s, pat, |needle|);
        ReplaceKeepsAbsent(s[|needle|..], needle, sub, pat);
        forall i | OccursAt(r, pat, i)
          ensures pat[0] in sub || OccursAt(rest, pat, i - |sub|)
        {
          if i < |sub| {
            assert r[i] == sub[i] && r[i] == pat[0];
          } else {
            assert r[i..i + |pat|] == rest[i - |sub|..i - |sub| + |pat|];
          }
        }
      } else {
        var rest := Replace(s[1..], needle, sub);
        OccursInSuffix(s, pat, 1);
        ReplaceKeepsAbsent(s[1..], needle, sub, pat);
        forall i | OccursAt(r, pat, i)
          ensures !SharesNoChar(pat, sub) || OccursAt(s, pat, 0) || OccursAt(rest, pat, i - 1)
        {
          if i == 0 {
            ReplacePrefix(s, needle, sub, |pat|);
          } else {
            assert r[i..i + |pat|] == rest[i - 1..i - 1 + |pat|];
          }
        }
      }
    }
  }

  /** When the replacement shares no character with `needle`, `Replace` leaves no
      occurrence of `needle` behind. */
  lemma {:induction false} ReplaceRemovesAll(s: string, needle: string, sub: string)
    requires |needle| > 0 && |sub| > 0
    ensures SharesNoChar(needle, sub) ==> !Occurs(Replace(s, needle, sub), needle)
    decreases |s|
  {
    if |s| > 0 {
      if |needle| <= |s| && s[..|needle|] == needle {
        ReplaceRemovesAll(s[|needle|..], needle, sub);
        ReplacedHeadClean(s, needle, sub);
      } else {
        ReplaceRemovesAll(s[1..], needle, sub);
        KeptHeadClean(s, needle, sub);
        FrontNotNeedle(s, needle, sub);
      }
    }
  }

  /** An occurrence after a replaced match lies in the replacement text or in
      the rest of the output. */
  lemma ReplacedHeadClean(s: string, needle: string, sub: string)
    requires |needle| > 0 && |sub| > 0 && |needle| <= |s| && s[..|needle|] == needle
    ensures forall i :: OccursAt(Replace(s, needle, sub), needle, i) ==>
              needle[0] in sub || OccursAt(Replace(s[|needle|..], needle, sub), needle, i - |sub|)
  {
    var r := Replace(s, needle, sub);
    var rest := Replace(s[|needle|..], needle, sub);
    assert r == sub + rest;
    forall i | OccursAt(r, needle, i)
      ensures needle[0] in sub || OccursAt(rest, needle, i - |sub|)
    {
      if i < |sub| {
        assert r[i] == sub[i] && r[i] == needle[0];
      } else {
        assert r[i..i + |needle|] == rest[i - |sub|..i - |sub| + |needle|];
      }
    }
  }

  /** An occurrence past the front, after a kept first character, lies in
      the rest of the output. */
  lemma KeptHeadClean(s: string, needle: string, sub: string)
    requires |needle| > 0 && |sub| > 0 && |s| > 0
    requires !(|needle| <= |s| && s[..|needle|] == needle)
    ensures forall i :: 0 < i && OccursAt(Replace(s, needle, sub), needle, i) ==>
              OccursAt(Replace(s[1..], needle, sub), needle, i - 1)
  {
    var r := Replace(s, needle, sub);
    var rest := Replace(s[1..], needle, sub);
    assert r == [s[0]] + rest;
    forall i | 0 < i && OccursAt(r, needle, i)
      ensures OccursAt(rest, needle, i - 1)
    {
      assert r[i..i + |needle|] == rest[i - 1..i - 1 + |needle|];
    }
  }

  /** When the input does not start with `needle` and the replacement shares
      no character with it, neither does the output. */
  lemma FrontNotNeedle(s: string, needle: string, sub: string)
    requires |needle| > 0 && |sub| > 0
    requires !(|needle| <= |s| && s[..|needle|] == needle)
    ensures SharesNoChar(needle, sub) ==> !OccursAt(Replace(s, needle, sub), needle, 0)
  {
    var r := Replace(s, needle, sub);
    if SharesNoChar(needle, sub) && |needle| <= |r| {
      ReplacePrefix(s, needle, sub, |needle|);
      CopiedFrontNotNeedle(s, r, needle, sub);
    }
  }

  /** An output whose front is copied from the input as long as it shows no
      character of `sub` cannot start with `needle` when the input does not. */
  lemma CopiedFrontNotNeedle(s: string, r: string, needle: string, sub: string)
    requires SharesNoChar(needle, sub) && |needle| <= |r|
    requires (forall j :: 0 <= j < |needle| ==> r[j] !in sub) ==> |needle| <= |s| && r[..|needle|] == s[..|needle|]
    requires !(|needle| <= |s| && s[..|needle|] == needle)
    ensures r[..|needle|] != needle
  {
    forall j | 0 <= j < |needle| && r[..|needle|] == needle
      ensures r[j] !in sub
    {
      assert r[j] == r[..|needle|][j];
    }
  }


  /** Every pattern and replacement text of `pairs` is non-empty. */
  ghost predicate NonEmptyPairs(pairs: seq<(string, string)>) {
    forall k :: 0 <= k < |pairs| ==> |pairs[k].0| > 0 && |pairs[k].1| > 0
  }

  /** The replacement texts of `pairs` share no character with any pattern of `pairs`. */
  ghost predicate Unrecreatable(pairs: seq<(string, string)>) {
    forall k, l :: 0 <= k < |pairs| && 0 <= l < |pairs| ==> SharesNoChar(pairs[k].0, pairs[l].1)
  }

  lemma {:induction false} ReplaceEachKeepsAbsent(s: string, pairs: seq<(string, string)>, pat: string)
    requires NonEmptyPairs(pairs)
    requires |pat| > 0
    ensures ((forall l :: 0 <= l < |pairs| ==> SharesNoChar(pat, pairs[l].1)) &&
             Occurs(ReplaceEach(s, pairs), pat)) ==> Occurs(s, pat)
    decreases |pairs|
  {
    if |pairs| > 0 {
      ReplaceKeepsAbsent(s, pairs[0].0, pairs[0].1, pat);
      ReplaceEachKeepsAbsent(Replace(s, pairs[0].0, pairs[0].1), pairs[1..], pat);
      if forall l :: 0 <= l < |pairs| ==> SharesNoChar(pat, pairs[l].1) {
        assert forall l :: 0 <= l < |pairs| - 1 ==> pairs[1..][l] == pairs[l + 1];
      }
    }
  }

  /** After the loop over `pairs`, no pattern of `pairs` occurs any more. */
  lemma {:induction false} ReplaceEachLeavesNone(s: string, pairs: seq<(string, string)>)
    requires NonEmptyPairs(pairs)
    ensures Unrecreatable(pairs) ==>
              forall k :: 0 <= k < |pairs| ==> !Occurs(ReplaceEach(s, pairs), pairs[k].0)
    decreases |pairs|
  {
    if |pairs| > 0 {
      var s' := Replace(s, pairs[0].0, pairs[0].1);
      ReplaceRemovesAll(s, pairs[0].0, pairs[0].1);
      ReplaceEachKeepsAbsent(s', pairs[1..], pairs[0].0);
      ReplaceEachLeavesNone(s', pairs[1..]);
      if Unrecreatable(pairs) {
        assert Unrecreatable(pairs[1..]) by {
          assert forall l :: 0 <= l < |pairs| - 1 ==> pairs[1..][l] == pairs[l + 1];
        }
        forall k | 0 <= k < |pairs|
          ensures !Occurs(ReplaceEach(s, pairs), pairs[k].0)
        {
          if k > 0 {
            assert pairs[k] == pairs[1..][k - 1];
          } else {
            assert forall l :: 0 <= l < |pairs| - 1 ==> pairs[1..][l] == pairs[l + 1];
          }
        }
      }
    }
  }

  /** Replacing a single character commutes with concatenation. */
  lemma {:induction false} ReplaceCharConcat(a: string, b: string, needle: string, sub: string)
    requires |needle| == 1
    ensures Replace(a + b, needle, sub) == Replace(a, needle, sub) + Replace(b, needle, sub)
    decreases |a|
  {
    if |a| > 0 {
      assert (a + b)[..1] == a[..1];
      assert (a + b)[1..] == a[1..] + b;
      ReplaceCharConcat(a[1..], b, needle, sub);
    } else {
      assert a + b == b;
    }
  }

  /** A prefix at none of whose positions `needle` starts is copied unchanged. */
  lemma {:induction false} ReplaceSkip(w: string, t: string, needle: string, sub: string)
    requires |needle| > 0
    requires forall j :: 0 <= j < |w| ==> !OccursAt(w + t, needle, j)
    ensures Replace(w + t, needle, sub) == w + Replace(t, needle, sub)
    decreases |w|
  {
    if |w| == 0 {
      assert w + t == t;
    } else {
      var s := w + t;
      assert !OccursAt(s, needle, 0);
      assert s[1..] == w[1..] + t;
      forall j | 0 <= j < |w| - 1
        ensures !OccursAt(w[1..] + t, needle, j)
      {
        OccursShift(s, needle, 1, j);
      }
      ReplaceSkip(w[1..], t, needle, sub);
    }
  }

  /** For one-character patterns the whole loop over `pairs` commutes with
      concatenation. */
  lemma {:induction false} ReplaceEachCharConcat(a: string, b: string, pairs: seq<(string, string)>)
    requires forall k :: 0 <= k < |pairs| ==> |pairs[k].0| == 1
    ensures ReplaceEach(a + b, pairs) == ReplaceEach(a, pairs) + ReplaceEach(b, pairs)
    decreases |pairs|
  {
    if |pairs| > 0 {
      ReplaceCharConcat(a, b, pairs[0].0, pairs[0].1);
      ReplaceEachCharConcat(Replace(a, pairs[0].0, pairs[0].1), Replace(b, pairs[0].0, pairs[0].1), pairs[1..]);
    }
  }

  lemma SharesNoCharFlip(a: string, b: string)
    ensures SharesNoChar(a, b) ==> SharesNoChar(b, a)
  {
  }

  /** A single left-to-right pass that, wherever a `width`-long key of `m`
      starts, emits that key's value and continues after the key. */
  function Scan(s: string, m: map<string, string>, width: nat): string
    requires width > 0
    decreases |s|
  {
    if |s| == 0 then ""
    else if width <= |s| && s[..width] in m then m[s[..width]] + Scan(s[width..], m, width)
    else [s[0]] + Scan(s[1..], m, width)
  }

  /** The map a list of pairs describes. */
  function MapOf(pairs: seq<(string, string)>): map<string, string>
    decreases |pairs|
  {
    if |pairs| == 0 then map[] else MapOf(pairs[1..])[pairs[0].0 := pairs[0].1]
  }

  /** The keys of `MapOf(pairs)` are exactly the patterns of `pairs`. */
  lemma {:induction false} MapOfKeys(pairs: seq<(string, string)>)
    ensures forall x :: x in MapOf(pairs) <==> exists k :: 0 <= k < |pairs| && pairs[k].0 == x
    decreases |pairs|
  {
    if |pairs| > 0 {
      MapOfKeys(pairs[1..]);
      assert forall k :: 0 < k < |pairs| ==> pairs[k] == pairs[1..][k - 1];
    }
  }

  ghost predicate KeysOfWidth(m: map<string, string>, width: nat) {
    forall key :: key in m ==> |key| == width
  }

  /** No proper suffix of a key is a prefix of a key. */
  ghost predicate NoOverlap(keys: set<string>, width: nat) {
    forall a, b, j :: a in keys && b in keys && 0 < j < width <= |a| && width <= |b| ==> a[j..width] != b[..width - j]
  }

  lemma {:induction false} ScanNoKeys(s: string, width: nat)
    requires width > 0
    ensures Scan(s, map[], width) == s
    decreases |s|
  {
    if |s| > 0 {
      ScanNoKeys(s[1..], width);
    }
  }

  /** Text sharing no character with any key passes through `Scan` unchanged. */
  lemma {:induction false} ScanSkip(u: string, x: string, m: map<string, string>, width: nat)
    requires width > 0
    requires forall key :: key in m ==> SharesNoChar(u, key)
    ensures Scan(u + x, m, width) == u + Scan(x, m, width)
    decreases |u|
  {
    var s := u + x;
    if |u| > 0 {
      assert width <= |s| ==> s[..width][0] == u[0];
      assert !(width <= |s| && s[..width] in m);
      assert s[1..] == u[1..] + x;
      ScanSkip(u[1..], x, m, width);
    } else {
      assert s == x;
    }
  }

  /** If a key starts right after the first character of `Replace`'s output and
      the key shares no character with the replacement, that key was in the input. */
  lemma ShiftedKey(s: string, needle: string, sub: string, m: map<string, string>, width: nat)
    requires width > 0 && |s| > 0 && |needle| > 0 && |sub| > 0
    requires forall key :: key in m ==> SharesNoChar(key, sub)
    ensures var u := [s[0]] + Replace(s[1..], needle, sub);
            width <= |u| && u[..width] in m ==> width <= |s| && s[..width] == u[..width]
  {
    var y := Replace(s[1..], needle, sub);
    var u := [s[0]] + y;
    if width <= |u| && u[..width] in m {
      var key := u[..width];
      forall j | 0 <= j < width - 1
        ensures y[j] !in sub
      {
        assert y[j] == key[j + 1];
      }
      ReplacePrefix(s[1..], needle, sub, width - 1);
      assert u[..width] == [s[0]] + y[..width - 1];
    }
  }

  /** Where one key starts, no other key of a non-overlapping family starts
      before it ends. */
  lemma KeyBlocksOthers(s: string, key: string, c: string, keys: set<string>, width: nat)
    requires width > 0 && width <= |s| && s[..width] == key
    requires key in keys && c in keys && key != c && |c| == width
    requires NoOverlap(keys, width)
    ensures forall j :: 0 <= j < width ==> !OccursAt(s, c, j)
  {
    forall j | 0 < j < width
      ensures !OccursAt(s, c, j)
    {
      var tail, head := key[j..width], c[..width - j];
      assert OccursAt(s, c, j) ==> tail == head;
    }
  }

  /** One `Replace` pass followed by a scan for the remaining keys is a scan
      for all keys, provided the keys do not overlap and no replacement text
      shares a character with a key. */
  lemma {:induction false} ScanStep(s: string, c1: string, m1: string, m: map<string, string>, width: nat)
    requires width > 0 && |c1| == width && |m1| > 0
    requires c1 !in m
    requires KeysOfWidth(m, width)
    requires NoOverlap(m.Keys + {c1}, width)
    requires forall key :: key in m ==> SharesNoChar(key, m1) && SharesNoChar(m1, key)
    ensures Scan(Replace(s, c1, m1), m, width) == Scan(s, m[c1 := m1], width)
    decreases |s|
  {
    if |s| == 0 {
    } else if width <= |s| && s[..width] == c1 {
      ScanSkip(m1, Replace(s[width..], c1, m1), m, width);
      ScanStep(s[width..], c1, m1, m, width);
    } else if width <= |s| && s[..width] in m {
      var key := s[..width];
      var rest := Replace(s[width..], c1, m1);
      KeyBlocksOthers(s, key, c1, m.Keys + {c1}, width);
      assert s == key + s[width..];
      ReplaceSkip(key, s[width..], c1, m1);
      assert (key + rest)[..width] == key;
      assert (key + rest)[width..] == rest;
      ScanStep(s[width..], c1, m1, m, width);
    } else {
      ShiftedKey(s, c1, m1, m, width);
      ScanStep(s[1..], c1, m1, m, width);
      var u := [s[0]] + Replace(s[1..], c1, m1);
      assert u[1..] == Replace(s[1..], c1, m1);
    }
  }

  /** Applying fixed-width, non-overlapping, distinct patterns one after the
      other, with replacements that share no character with any pattern, is
      the same as a single left-to-right scan for all of them. */
  lemma {:induction false} ReplaceEachIsScan(s: string, pairs: seq<(string, string)>, width: nat)
    requires width > 0
    requires forall k :: 0 <= k < |pairs| ==> |pairs[k].0| == width && |pairs[k].1| > 0
    requires forall k, l :: 0 <= k < l < |pairs| ==> pairs[k].0 != pairs[l].0
    requires NoOverlap(MapOf(pairs).Keys, width)
    requires Unrecreatable(pairs)
    ensures ReplaceEach(s, pairs) == Scan(s, MapOf(pairs), width)
    decreases |pairs|
  {
    if |pairs| == 0 {
      ScanNoKeys(s, width);
    } else {
      var c1, m1 := pairs[0].0, pairs[0].1;
      var rest := pairs[1..];
      assert forall k :: 0 <= k < |rest| ==> rest[k] == pairs[k + 1];
      var m := MapOf(rest);
      MapOfKeys(pairs);
      MapOfKeys(rest);
      assert MapOf(pairs) == m[c1 := m1];
      assert m.Keys + {c1} == MapOf(pairs).Keys;
      forall key | key in m
        ensures SharesNoChar(key, m1) && SharesNoChar(m1, key)
      {
        var k :| 0 <= k < |rest| && rest[k].0 == key;
        assert SharesNoChar(pairs[k + 1].0, pairs[0].1);
        SharesNoCharFlip(key, m1);
      }
      ReplaceEachIsScan(Replace(s, c1, m1), rest, width);
      ScanStep(s, c1, m1, m, width);
    }
  }

  /** Where `needle` does not occur, `Replace` changes nothing. */
  lemma {:induction false} ReplaceAbsent(s: string, needle: string, sub: string)
    requires |needle| > 0
    ensures !Occurs(s, needle) ==> Replace(s, needle, sub) == s
    decreases |s|
  {
    if |s| > 0 {
      if |needle| <= |s| && s[..|needle|] == needle {
        assert OccursAt(s, needle, 0);
      } else {
        OccursInSuffix(s, needle, 1);
        ReplaceAbsent(s[1..], needle, sub);
        assert [s[0]] + s[1..] == s;
      }
    }
  }

  /** Where no pattern of `pairs` occurs, the loop over `pairs` changes nothing. */
  lemma {:induction false} ReplaceEachAbsent(s: string, pairs: seq<(string, string)>)
    requires forall k :: 0 <= k < |pairs| ==> |pairs[k].0| > 0
    ensures (forall k :: 0 <= k < |pairs| ==> !Occurs(s, pairs[k].0)) ==> ReplaceEach(s, pairs) == s
    decreases |pairs|
  {
    if |pairs| > 0 {
      ReplaceAbsent(s, pairs[0].0, pairs[0].1);
      ReplaceEachAbsent(s, pairs[1..]);
      assert forall k :: 0 <= k < |pairs| - 1 ==> pairs[1..][k] == pairs[k + 1];
    }
  }

  /** Passes whose patterns are single characters drawn from `cs` leave a
      text without those characters unchanged. */
  lemma AbsentCharsUntouched(v: string, pairs: seq<(string, string)>, cs: string)
    requires forall k :: 0 <= k < |pairs| ==> |pairs[k].0| == 1 && pairs[k].0[0] in cs
    requires forall i :: 0 <= i < |v| ==> v[i] !in cs
    ensures ReplaceEach(v, pairs) == v
  {
    forall k | 0 <= k < |pairs|
      ensures !Occurs(v, pairs[k].0)
    {
      var d := pairs[k].0[0];
      assert pairs[k].0 == [d];
      OccursSingle(v, d);
    }
    ReplaceEachAbsent(v, pairs);
  }

  /** A one-character pattern occurs exactly when its character does. */
  lemma OccursSingle(s: string, c: char)
    ensures Occurs(s, [c]) <==> c in s
  {
    if c in s {
      var i :| 0 <= i < |s| && s[i] == c;
      assert s[i..i + 1] == [c];
      assert OccursAt(s, [c], i);
    }
    forall i | OccursAt(s, [c], i)
      ensures s[i] == c
    {
      assert s[i..i + 1][0] == s[i];
    }
  }

  /** The replacement of the first pair whose pattern is `key`. */
  function FirstSub(key: string, pairs: seq<(string, string)>): (r: Option<string>)
    ensures r.Some? ==> exists k :: 0 <= k < |pairs| && pairs[k] == (key, r.value)
    ensures r.None? <==> forall k :: 0 <= k < |pairs| ==> pairs[k].0 != key
    decreases |pairs|
  {
    if |pairs| == 0 then None
    else if pairs[0].0 == key then Some(pairs[0].1)
    else
      var r := FirstSub(key, pairs[1..]);
      assert forall k :: 0 < k < |pairs| ==> pairs[k] == pairs[1..][k - 1];
      r
  }

  /** On a single character, a loop of one-character replacements that cannot
      recreate each other's patterns applies at most the one replacement whose
      pattern is that character. */
  lemma {:induction false} ReplaceEachOnChar(c: char, pairs: seq<(string, string)>)
    requires forall k :: 0 <= k < |pairs| ==> |pairs[k].0| == 1
    requires Unrecreatable(pairs)
    ensures ReplaceEach([c], pairs) == if FirstSub([c], pairs).Some? then FirstSub([c], pairs).value else [c]
    decreases |pairs|
  {
    if |pairs| > 0 {
      var rest := pairs[1..];
      assert forall k :: 0 <= k < |rest| ==> rest[k] == pairs[k + 1];
      assert Unrecreatable(rest);
      if pairs[0].0 == [c] {
        var v := pairs[0].1;
        assert Replace([c], pairs[0].0, v) == v + Replace([], pairs[0].0, v) == v;
        assert FirstSub([c], pairs) == Some(v);
        forall k | 0 <= k < |rest|
          ensures !Occurs(v, rest[k].0)
        {
          assert rest[k].0 == [rest[k].0[0]];
          assert SharesNoChar(rest[k].0, v);
          OccursSingle(v, rest[k].0[0]);
        }
        ReplaceEachAbsent(v, rest);
      } else {
        assert Replace([c], pairs[0].0, pairs[0].1) == [c] + Replace([], pairs[0].0, pairs[0].1);
        ReplaceEachOnChar(c, rest);
      }
    }
  }

  /** With distinct patterns, the pair whose pattern is `key` supplies the
      replacement. */
  lemma FirstSubUnique(key: string, pairs: seq<(string, string)>, j: int)
    requires forall k, l :: 0 <= k < l < |pairs| ==> pairs[k].0 != pairs[l].0
    requires 0 <= j < |pairs| && pairs[j].0 == key
    ensures FirstSub(key, pairs) == Some(pairs[j].1)
  {
    var i :| 0 <= i < |pairs| && pairs[i] == (key, FirstSub(key, pairs).value);
    assert !(i < j) && !(j < i);
  }

  /** An occurrence inside an occurring piece is an occurrence in the whole. */
  lemma OccursTrans(s: string, t: string, pat: string)
    ensures Occurs(s, t) && Occurs(t, pat) ==> Occurs(s, pat)
  {
    if Occurs(s, t) && Occurs(t, pat) {
      var j :| OccursAt(s, t, j);
      var i :| OccursAt(t, pat, i);
      var piece := s[j + i..j + i + |pat|];
      forall n | 0 <= n < |pat|
        ensures piece[n] == pat[n]
      {
        assert piece[n] == s[j + i + n] == t[i + n];
      }
      assert piece == pat;
      assert OccursAt(s, pat, j + i);
    }
  }
}
