/**
 Line preparation: trimming surrounding whitespace, optional lowercasing,
 punctuation encoding and splitting on whitespace, in that order.
 */
module Tokenizer {
  import opened Text
  import opened Punctuation

  /** Python's `str.isspace`: the ASCII whitespace and separator controls
      (tab to carriage return, the four separators and the space) and the
      Unicode space characters, 29 in all. */
  predicate IsSpace(c: char) {
    || '\U{9}' <= c <= '\U{D}'
    || '\U{1C}' <= c <= '\U{20}'
    || c == '\U{85}' || c == '\U{A0}' || c == '\U{1680}'
    || '\U{2000}' <= c <= '\U{200A}'
    || c == '\U{2028}' || c == '\U{2029}' || c == '\U{202F}' || c == '\U{205F}' || c == '\U{3000}'
  }

  predicate NoSpace(s: string) {
    forall i :: 0 <= i < |s| ==> !IsSpace(s[i])
  }

  /** Every character of `w` is whitespace. */
  predicate AllSpace(w: string) {
    forall i :: 0 <= i < |w| ==> IsSpace(w[i])
  }

  /** `r` is `s` after dropping a prefix of whitespace. */
  predicate LeadingRemoved(s: string, r: string) {
    |r| <= |s| && r == s[|s| - |r|..] && AllSpace(s[..|s| - |r|])
  }

  /** `r` is `s` after dropping a suffix of whitespace. */
  predicate TrailingRemoved(s: string, r: string) {
    |r| <= |s| && r == s[..|r|] && AllSpace(s[|r|..])
  }

  /** `s` without its leading whitespace. */
  function TrimStart(s: string): (r: string)
    ensures LeadingRemoved(s, r)
    ensures |r| > 0 ==> !IsSpace(r[0])
    decreases |s|
  {
    if |s| > 0 && IsSpace(s[0]) then
      var r := TrimStart(s[1..]);
      assert s[..|s| - |r|] == [s[0]] + s[1..][..|s| - 1 - |r|];
      r
    else s
  }

  /** `s` without its trailing whitespace. */
  function TrimEnd(s: string): (r: string)
    ensures TrailingRemoved(s, r)
    ensures |r| > 0 ==> !IsSpace(r[|r| - 1])
    decreases |s|
  {
    if |s| > 0 && IsSpace(s[|s| - 1]) then
      var r := TrimEnd(s[..|s| - 1]);
      assert s[|r|..] == s[..|s| - 1][|r|..] + [s[|s| - 1]];
      r
    else s
  }

  /** Python's `str.strip()`: the slice of `s` left after removing whitespace
      at both ends. */
  function Strip(s: string): (r: string)
    ensures |r| > 0 ==> !IsSpace(r[0]) && !IsSpace(r[|r| - 1])
    ensures exists a :: StrippedAt(s, a, r)
  {
    StripShape(s);
    TrimEnd(TrimStart(s))
  }

  lemma StripShape(s: string)
    ensures StrippedAt(s, |s| - |TrimStart(s)|, TrimEnd(TrimStart(s)))
  {
    var t := TrimStart(s);
    TrimmedBothEnds(s, t, TrimEnd(t));
  }

  /** Trimming a prefix of whitespace and then a suffix of whitespace leaves
      a slice of the original with only whitespace around it. */
  lemma TrimmedBothEnds(s: string, t: string, r: string)
    requires LeadingRemoved(s, t) && TrailingRemoved(t, r)
    ensures StrippedAt(s, |s| - |t|, r)
  {
    var a := |s| - |t|;
    assert r == s[a..a + |r|];
    assert s[a + |r|..] == t[|r|..];
  }

  /** `r` is the slice of `s` starting at `a`, and only whitespace lies
      around it. */
  ghost predicate StrippedAt(s: string, a: int, r: string) {
    0 <= a && a + |r| <= |s| && r == s[a..a + |r|]
    && AllSpace(s[..a]) && AllSpace(s[a + |r|..])
  }

  /** ASCII lowercasing of one character. */
  function LowerChar(c: char): char {
    if 'A' <= c <= 'Z' then (c as int + 32) as char else c
  }

  /** `str.lower()`, restricted to the ASCII letters. */
  function Lower(s: string): string {
    seq(|s|, i requires 0 <= i < |s| => LowerChar(s[i]))
  }

  /** Lowercasing leaves whitespace and punctuation marks where they were and
      is idempotent. */
  lemma LowerKeepsMarks(s: string)
    ensures |Lower(s)| == |s|
    ensures forall i :: 0 <= i < |s| && (s[i] in MarkChars || IsSpace(s[i])) ==> Lower(s)[i] == s[i]
    ensures forall i :: 0 <= i < |s| ==> !('A' <= Lower(s)[i] <= 'Z')
    ensures Lower(Lower(s)) == Lower(s)
  {
  }

  /** Lowercased text holds no code, so when the corpus is lowercased every
      code in an encoded line was put there by the encoder. */
  lemma LoweredHoldsNoCode(s: string)
    ensures forall c :: c in Marks ==> !Occurs(Lower(s), c)
  {
    CodesHaveNoLowercase();
    TableShape();
    forall c, i | c in Marks && 1 <= i && i + |c| <= |s| + 1
      ensures Lower(s)[i] != c[1]
    {
      LowerKeepsMarks(s);
    }
  }

  /** The longest space-free prefix of `s`. */
  function Word(s: string): (w: string)
    ensures |w| <= |s| && w == s[..|w|] && NoSpace(w)
    ensures |w| < |s| ==> IsSpace(s[|w|])
    decreases |s|
  {
    if |s| == 0 || IsSpace(s[0]) then "" else [s[0]] + Word(s[1..])
  }

  /** The non-whitespace characters of `s`, in order. */
  function RemoveSpaces(s: string): string
    decreases |s|
  {
    if |s| == 0 then "" else (if IsSpace(s[0]) then "" else [s[0]]) + RemoveSpaces(s[1..])
  }

  function Concat(ws: seq<string>): string
    decreases |ws|
  {
    if |ws| == 0 then "" else ws[0] + Concat(ws[1..])
  }

  lemma {:induction false} RemoveSpacesAppend(a: string, b: string)
    ensures RemoveSpaces(a + b) == RemoveSpaces(a) + RemoveSpaces(b)
    decreases |a|
  {
    if |a| > 0 {
      assert (a + b)[1..] == a[1..] + b;
      RemoveSpacesAppend(a[1..], b);
    } else {
      assert a + b == b;
    }
  }

  lemma {:induction false} RemoveSpacesOfWord(w: string)
    ensures NoSpace(w) ==> RemoveSpaces(w) == w
    decreases |w|
  {
    if |w| > 0 {
      RemoveSpacesOfWord(w[1..]);
    }
  }

  /** Python's `str.split()` with no separator: the maximal runs of
      non-whitespace characters of `s`. No token is empty or holds
      whitespace. */
  function Split(s: string): (r: seq<string>)
    ensures forall k :: 0 <= k < |r| ==> |r[k]| > 0 && NoSpace(r[k])
    decreases |s|
  {
    if |s| == 0 then []
    else if IsSpace(s[0]) then Split(s[1..])
    else [Word(s)] + Split(s[|Word(s)|..])
  }

  /** Together the tokens hold exactly the non-whitespace characters of the
      line, in order. */
  lemma {:induction false} SplitKeepsText(s: string)
    ensures Concat(Split(s)) == RemoveSpaces(s)
    decreases |s|
  {
    if |s| > 0 {
      if IsSpace(s[0]) {
        SplitKeepsText(s[1..]);
      } else {
        var w := Word(s);
        var rest := s[|w|..];
        SplitKeepsText(rest);
        RemoveSpacesAppend(w, rest);
        assert s == w + rest;
        RemoveSpacesOfWord(w);
        assert Split(s) == [w] + Split(rest);
        assert Concat([w] + Split(rest)) == w + Concat(Split(rest)) by {
          assert ([w] + Split(rest))[1..] == Split(rest);
        }
      }
    }
  }

  /** Every token of `Split(s)` is a piece of `s`. */
  lemma {:induction false} SplitTokensOccur(s: string)
    ensures forall k :: 0 <= k < |Split(s)| ==> Occurs(s, Split(s)[k])
    decreases |s|
  {
    if |s| > 0 {
      if IsSpace(s[0]) {
        SplitTokensOccur(s[1..]);
        forall k | 0 <= k < |Split(s)|
          ensures Occurs(s, Split(s)[k])
        {
          assert Split(s)[k] == Split(s[1..])[k];
          assert Occurs(s[1..], Split(s[1..])[k]);
          OccursInSuffix(s, Split(s)[k], 1);
        }
      } else {
        var w := Word(s);
        SplitTokensOccur(s[|w|..]);
        assert OccursAt(s, w, 0);
        assert Split(s)[0] == w;
        forall k | 0 < k < |Split(s)|
          ensures Occurs(s, Split(s)[k])
        {
          assert Split(s)[k] == Split(s[|w|..])[k - 1];
          assert Occurs(s[|w|..], Split(s[|w|..])[k - 1]);
          OccursInSuffix(s, Split(s)[k], |w|);
        }
      }
    }
  }

  /** `gaps[0] + ws[0] + gaps[1] + … + ws[m - 1] + gaps[m]`: tokens with the
      text between, before and after them. */
  function Weave(gaps: seq<string>, ws: seq<string>): string
    requires |gaps| == |ws| + 1
    decreases |ws|
  {
    if |ws| == 0 then gaps[0] else gaps[0] + ws[0] + Weave(gaps[1..], ws[1..])
  }

  /** What `str.split()` sees in a line: non-empty whitespace-free tokens,
      separated by non-empty runs of whitespace, with possibly empty runs of
      whitespace before the first and after the last. */
  predicate Layout(gaps: seq<string>, ws: seq<string>) {
    |gaps| == |ws| + 1
    && (forall k :: 0 <= k < |gaps| ==> AllSpace(gaps[k]))
    && (forall k :: 0 < k < |ws| ==> |gaps[k]| > 0)
    && (forall k :: 0 <= k < |ws| ==> |ws[k]| > 0 && NoSpace(ws[k]))
  }

  /** The whitespace runs around the tokens of `Split(s)`. */
  function SplitGaps(s: string): (gaps: seq<string>)
    ensures |gaps| == |Split(s)| + 1
    ensures |s| > 0 && IsSpace(s[0]) ==> |gaps[0]| > 0
    decreases |s|
  {
    if |s| == 0 then [""]
    else if IsSpace(s[0]) then
      var g := SplitGaps(s[1..]);
      [[s[0]] + g[0]] + g[1..]
    else [""] + SplitGaps(s[|Word(s)|..])
  }

  /** Every line is its tokens woven with whitespace runs. */
  lemma {:induction false} SplitLayout(s: string)
    ensures Layout(SplitGaps(s), Split(s))
    ensures Weave(SplitGaps(s), Split(s)) == s
    decreases |s|
  {
    if |s| > 0 {
      if IsSpace(s[0]) {
        SplitLayout(s[1..]);
        SplitLayoutSpace(s);
      } else {
        SplitLayout(s[|Word(s)|..]);
        SplitLayoutWord(s);
      }
    }
  }

  lemma {:induction false} SplitLayoutSpace(s: string)
    requires |s| > 0 && IsSpace(s[0])
    requires Layout(SplitGaps(s[1..]), Split(s[1..])) && Weave(SplitGaps(s[1..]), Split(s[1..])) == s[1..]
    ensures Layout(SplitGaps(s), Split(s)) && Weave(SplitGaps(s), Split(s)) == s
  {
    var t := s[1..];
    LayoutSpaceStep(s[0], t, SplitGaps(t), Split(t));
    assert s == [s[0]] + t;
  }

  lemma {:induction false} SplitLayoutWord(s: string)
    requires |s| > 0 && !IsSpace(s[0])
    requires var rest := s[|Word(s)|..]; Layout(SplitGaps(rest), Split(rest)) && Weave(SplitGaps(rest), Split(rest)) == rest
    ensures Layout(SplitGaps(s), Split(s)) && Weave(SplitGaps(s), Split(s)) == s
  {
    var w := Word(s);
    var rest := s[|w|..];
    WordUnfold(s);
    GapBeforeWord(rest);
    LayoutWordStep(w, rest, SplitGaps(rest), Split(rest), SplitGaps(s), Split(s));
  }

  /** A word at the front of a line is the first word of its split, after an
      empty gap. */
  lemma {:induction false} WordUnfold(s: string)
    requires |s| > 0 && !IsSpace(s[0])
    ensures var w := Word(s); var rest := s[|w|..];
      && |w| > 0 && NoSpace(w) && s == w + rest
      && SplitGaps(s) == [""] + SplitGaps(rest) && Split(s) == [w] + Split(rest)
  {
    var w := Word(s);
    assert s[..|w|] == w;
  }

  /** What follows a word starts with whitespace, so its first gap is not
      empty when a word follows. */
  lemma {:induction false} GapBeforeWord(rest: string)
    requires |rest| > 0 ==> IsSpace(rest[0])
    ensures |Split(rest)| > 0 ==> |SplitGaps(rest)[0]| > 0
  {
    if |Split(rest)| > 0 {
      assert |rest| > 0;
    }
  }

  /** Whitespace in front of a layout joins its first gap. */
  lemma LayoutSpaceStep(c: char, t: string, g: seq<string>, ws: seq<string>)
    requires IsSpace(c) && Layout(g, ws) && Weave(g, ws) == t
    ensures Layout([[c] + g[0]] + g[1..], ws)
    ensures Weave([[c] + g[0]] + g[1..], ws) == [c] + t
  {
    var gaps := [[c] + g[0]] + g[1..];
    assert gaps[1..] == g[1..];
    if |ws| == 0 {
      assert Weave(gaps, ws) == [c] + g[0];
    } else {
      assert Weave(gaps, ws) == ([c] + g[0]) + ws[0] + Weave(g[1..], ws[1..]);
      assert Weave(g, ws) == g[0] + ws[0] + Weave(g[1..], ws[1..]);
    }
    assert AllSpace(g[0]);
    forall k | 0 < k < |gaps|
      ensures AllSpace(gaps[k]) && gaps[k] == g[k]
    {
    }
  }

  /** A token in front of a layout that begins with whitespace (or is empty)
      becomes its first token. */
  lemma LayoutWordStep(w: string, rest: string, g: seq<string>, ws: seq<string>, gaps: seq<string>, vs: seq<string>)
    requires |w| > 0 && NoSpace(w)
    requires Layout(g, ws) && Weave(g, ws) == rest
    requires |ws| > 0 ==> |g[0]| > 0
    requires gaps == [""] + g && vs == [w] + ws
    ensures Layout(gaps, vs)
    ensures Weave(gaps, vs) == w + rest
  {
    assert vs[1..] == ws && gaps[1..] == g;
    assert Weave(gaps, vs) == "" + w + Weave(g, ws);
    assert "" + w == w;
    forall k | 0 <= k < |gaps|
      ensures AllSpace(gaps[k])
    {
      if k > 0 {
        assert gaps[k] == g[k - 1];
      }
    }
    forall k | 0 < k < |vs|
      ensures |gaps[k]| > 0 && |vs[k]| > 0 && NoSpace(vs[k])
    {
      assert gaps[k] == g[k - 1] && vs[k] == ws[k - 1];
    }
  }

  /** Leading whitespace makes no token. */
  lemma {:induction false} SplitSkipsSpace(g: string, t: string)
    requires AllSpace(g)
    ensures Split(g + t) == Split(t)
    decreases |g|
  {
    if |g| > 0 {
      assert (g + t)[1..] == g[1..] + t;
      SplitSkipsSpace(g[1..], t);
    } else {
      assert g + t == t;
    }
  }

  /** A woven line is whitespace or begins with its first gap. */
  lemma WeaveHead(gaps: seq<string>, ws: seq<string>)
    requires Layout(gaps, ws)
    ensures |Weave(gaps, ws)| > 0 ==> IsSpace(Weave(gaps, ws)[0]) || |gaps[0]| == 0
  {
    if |gaps[0]| > 0 {
      if |ws| > 0 {
        assert Weave(gaps, ws) == gaps[0] + (ws[0] + Weave(gaps[1..], ws[1..]));
      }
      assert Weave(gaps, ws)[0] == gaps[0][0];
    }
  }

  /** Splitting any layout gives back its tokens: `Split(s)` is the only
      token sequence `s` can be laid out around. */
  lemma {:induction false} SplitOfLayout(gaps: seq<string>, ws: seq<string>)
    requires Layout(gaps, ws)
    ensures Split(Weave(gaps, ws)) == ws
    decreases |ws|
  {
    if |ws| == 0 {
      SplitSkipsSpace(gaps[0], "");
      assert gaps[0] + "" == gaps[0];
    } else {
      var t := Weave(gaps[1..], ws[1..]);
      LayoutTail(gaps, ws);
      SplitOfLayout(gaps[1..], ws[1..]);
      assert Weave(gaps, ws) == gaps[0] + (ws[0] + t);
      SplitWordAfterSpace(gaps[0], ws[0], t);
    }
  }

  /** What follows the first token of a layout is a layout that is empty or
      begins with whitespace. */
  lemma LayoutTail(gaps: seq<string>, ws: seq<string>)
    requires Layout(gaps, ws) && |ws| > 0
    ensures Layout(gaps[1..], ws[1..])
    ensures |Weave(gaps[1..], ws[1..])| > 0 ==> IsSpace(Weave(gaps[1..], ws[1..])[0])
  {
    forall k | 0 < k < |ws| - 1
      ensures |gaps[1..][k]| > 0
    {
      assert gaps[1..][k] == gaps[k + 1];
    }
    WeaveHead(gaps[1..], ws[1..]);
    if |ws| == 1 {
      assert Weave(gaps[1..], ws[1..]) == gaps[1];
    }
  }

  /** Whitespace, then a token, then text that is empty or begins with
      whitespace, splits into the token and the split of that text. */
  lemma SplitWordAfterSpace(g: string, w: string, t: string)
    requires AllSpace(g) && |w| > 0 && NoSpace(w) && (|t| > 0 ==> IsSpace(t[0]))
    ensures Split(g + (w + t)) == [w] + Split(t)
  {
    var u := w + t;
    SplitSkipsSpace(g, u);
    WordOf(w, t);
    assert u[|w|..] == t;
    assert u[0] == w[0];
  }

  /** Tokens separated by single spaces. */
  function JoinSpaced(ws: seq<string>): string
    decreases |ws|
  {
    if |ws| == 0 then "" else if |ws| == 1 then ws[0] else ws[0] + " " + JoinSpaced(ws[1..])
  }

  lemma {:induction false} WordOf(w: string, t: string)
    requires NoSpace(w)
    requires |t| > 0 ==> IsSpace(t[0])
    ensures Word(w + t) == w
    decreases |w|
  {
    if |w| > 0 {
      assert (w + t)[1..] == w[1..] + t;
      WordOf(w[1..], t);
    } else {
      assert w + t == t;
    }
  }

  /** Splitting undoes joining by spaces, for non-empty space-free tokens. */
  lemma {:induction false} SplitJoinSpaced(ws: seq<string>)
    requires forall k :: 0 <= k < |ws| ==> |ws[k]| > 0 && NoSpace(ws[k])
    ensures Split(JoinSpaced(ws)) == ws
    decreases |ws|
  {
    if |ws| == 1 {
      WordOf(ws[0], "");
      assert ws[0] + "" == ws[0];
      assert JoinSpaced(ws)[|ws[0]|..] == "";
    } else if |ws| > 1 {
      var s, rest := JoinSpaced(ws), JoinSpaced(ws[1..]);
      assert s == ws[0] + (" " + rest);
      WordOf(ws[0], " " + rest);
      assert s[|ws[0]|..] == " " + rest;
      assert (" " + rest)[1..] == rest;
      SplitJoinSpaced(ws[1..]);
    }
  }

  /** A corpus line before encoding: stripped, and lowercased when asked. */
  function Prepare(line: string, lowercase: bool): string {
    if lowercase then Lower(Strip(line)) else Strip(line)
  }

  /** The tokens of one corpus line: strip, lowercase when asked, encode the
      punctuation, split. The tokens are exactly those the encoded line
      (written with the single-pass reference encoder) lays out between its
      whitespace runs. */
  function Tokenize(line: string, lowercase: bool): (r: seq<string>)
    ensures forall k :: 0 <= k < |r| ==> |r[k]| > 0 && NoSpace(r[k])
    ensures forall k, m :: 0 <= k < |r| && 0 <= m < |Table| ==> !Occurs(r[k], Table[m].1)
    ensures Layout(SplitGaps(EncodeScan(Prepare(line, lowercase))), r)
    ensures Weave(SplitGaps(EncodeScan(Prepare(line, lowercase))), r) == EncodeScan(Prepare(line, lowercase))
  {
    var text := Encode(Prepare(line, lowercase));
    var r := Split(text);
    EncodeIsScan(Prepare(line, lowercase));
    SplitLayout(text);
    EncodeRemovesMarks(Prepare(line, lowercase));
    SplitTokensOccur(text);
    assert forall k, m :: 0 <= k < |r| && 0 <= m < |Table| ==> !Occurs(r[k], Table[m].1) by {
      forall k, m | 0 <= k < |r| && 0 <= m < |Table|
        ensures !Occurs(r[k], Table[m].1)
      {
        OccursTrans(text, r[k], Table[m].1);
      }
    }
    r
  }
}
