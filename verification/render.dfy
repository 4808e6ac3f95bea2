/**
 The renderer: how a run of tokens becomes a rule key, a `#…#` reference to a
 rule, a terminal string, or the continuation of an n-gram context.
 */
module Render {
  import opened Text
  import opened Punctuation

  /** The word `origin` names the grammar's start rule, so corpus text never
      uses it verbatim in keys or references. */
  const OriginWord: string := "origin"
  const OriginSubstitute: string := "WORD_ORIGIN"

  /** The separator written before the token `next`: nothing when it begins
      with a code, one space otherwise. */
  function Separator(next: string): string {
    if HasCodePrefix(next) then "" else " "
  }

  /** `_get_spaces`: the separator written after each token. */
  function Spaces(ts: seq<string>): seq<string> {
    seq(|ts|, i requires 0 <= i < |ts| => if i + 1 == |ts| then "" else Separator(ts[i + 1]))
  }

  /** `_substitute_word_origin`. */
  function SubstituteWordOrigin(ts: seq<string>): seq<string> {
    seq(|ts|, i requires 0 <= i < |ts| => if ts[i] == OriginWord then OriginSubstitute else ts[i])
  }

  /** `''.join(chain.from_iterable(zip(ts, sp)))`. */
  function Interleave(ts: seq<string>, sp: seq<string>): string
    requires |ts| == |sp|
    decreases |ts|
  {
    if |ts| == 0 then "" else ts[0] + sp[0] + Interleave(ts[1..], sp[1..])
  }

  /** `_symbol`: a reference to the rule whose key is the tokens' literal. */
  function Symbol(ts: seq<string>): string {
    "#" + Interleave(SubstituteWordOrigin(ts), Spaces(ts)) + "#"
  }

  /** `_literal`: with `convert` false a rule key (with `origin` substituted),
      with `convert` true terminal text (codes turned back into marks, `origin`
      kept). */
  function Literal(ts: seq<string>, convert: bool): string {
    if convert then Decode(Interleave(ts, Spaces(ts)))
    else Interleave(SubstituteWordOrigin(ts), Spaces(ts))
  }

  /** `_ngram`: the first token as terminal text, a space unless the second
      token begins with a code, and a reference to the rest of the window. */
  function Ngram(w: seq<string>): string
    requires |w| >= 2
  {
    Literal(w[..1], true) + Separator(w[1]) + Symbol(w[1..])
  }

  /** Reference join: consecutive tokens are separated by one space, except
      that nothing separates a token from a following token that begins with
      a code. */
  function SpacedJoin(ts: seq<string>): string
    decreases |ts|
  {
    if |ts| == 0 then ""
    else if |ts| == 1 then ts[0]
    else ts[0] + Separator(ts[1]) + SpacedJoin(ts[1..])
  }

  //
  // Properties
  //

  /** Exactly one separator per token: nothing after the last token or before
      a token whose first eight characters are a code, one space otherwise. */
  lemma SpacesRule(ts: seq<string>)
    ensures |Spaces(ts)| == |ts|
    ensures forall i :: 0 <= i < |ts| ==> Spaces(ts)[i] in {"", " "}
    ensures forall i :: 0 <= i < |ts| ==>
              (Spaces(ts)[i] == "" <==> i + 1 == |ts| || (CodeWidth <= |ts[i + 1]| && ts[i + 1][..CodeWidth] in Marks))
  {
    forall i | 0 <= i < |ts| - 1 {
      HasCodePrefixIff(ts[i + 1]);
    }
  }

  /** Substitution replaces exactly the tokens equal to `origin`, each by
      `WORD_ORIGIN`. */
  lemma SubstituteWordOriginRule(ts: seq<string>)
    ensures |SubstituteWordOrigin(ts)| == |ts|
    ensures forall i :: 0 <= i < |ts| ==> SubstituteWordOrigin(ts)[i] != OriginWord
    ensures forall i :: 0 <= i < |ts| && ts[i] == OriginWord ==> SubstituteWordOrigin(ts)[i] == OriginSubstitute
    ensures forall i :: 0 <= i < |ts| && ts[i] != OriginWord ==> SubstituteWordOrigin(ts)[i] == ts[i]
  {
  }

  /** The substitution is not one to one: a corpus token `WORD_ORIGIN` (kept
      in a corpus that is not lowercased) renders the same rule key as the
      token `origin`, so the two share one rule. */
  lemma SubstituteCollides(ts: seq<string>, us: seq<string>)
    requires |ts| == |us|
    requires forall i :: 0 <= i < |ts| ==> ts[i] == us[i] || (ts[i] == OriginWord && us[i] == OriginSubstitute)
    ensures Literal(ts, false) == Literal(us, false)
    ensures Symbol(ts) == Symbol(us)
  {
    assert !HasCodePrefix(OriginWord) && !HasCodePrefix(OriginSubstitute) by {
      assert Head(OriginWord) == OriginWord;
      assert Head(OriginSubstitute) == "WORD_ORI";
    }
    assert SubstituteWordOrigin(ts) == SubstituteWordOrigin(us);
    assert Spaces(ts) == Spaces(us);
  }

  /** Spaces depend only on the next token, so they shift with the tokens. */
  lemma SpacesTail(ts: seq<string>)
    requires |ts| > 0
    ensures Spaces(ts)[1..] == Spaces(ts[1..])
  {
  }

  /** The rendered join of tokens and separators is the reference join. */
  lemma {:induction false} InterleaveIsSpacedJoin(ts: seq<string>)
    ensures Interleave(ts, Spaces(ts)) == SpacedJoin(ts)
    decreases |ts|
  {
    if |ts| == 1 {
      assert Spaces(ts)[0] == "";
      assert Interleave(ts[1..], Spaces(ts)[1..]) == "";
    } else if |ts| > 1 {
      SpacesTail(ts);
      InterleaveIsSpacedJoin(ts[1..]);
    }
  }

  /** Substituting `origin` changes no separator, since `origin` and its
      substitute are both too short to begin with a code. */
  lemma SubstitutedSpaces(ts: seq<string>)
    ensures Spaces(SubstituteWordOrigin(ts)) == Spaces(ts)
  {
    var us := SubstituteWordOrigin(ts);
    assert !HasCodePrefix(OriginWord) && !HasCodePrefix(OriginSubstitute) by {
      assert Head(OriginWord) == OriginWord;
      assert Head(OriginSubstitute) == "WORD_ORI";
    }
    forall i | 0 <= i < |ts|
      ensures HasCodePrefix(us[i]) == HasCodePrefix(ts[i])
    {
    }
  }

  /** A rule key is the reference join of the substituted tokens. */
  lemma KeyIsSpacedJoin(ts: seq<string>)
    ensures Literal(ts, false) == SpacedJoin(SubstituteWordOrigin(ts))
  {
    SubstitutedSpaces(ts);
    InterleaveIsSpacedJoin(SubstituteWordOrigin(ts));
  }

  /** Terminal text is the reference join of the tokens, unsubstituted, with
      every code turned back into its mark in a single pass; no code is left
      in it. */
  lemma TerminalIsDecodedJoin(ts: seq<string>)
    ensures Literal(ts, true) == DecodeScan(SpacedJoin(ts))
    ensures forall c :: c in Marks ==> !Occurs(Literal(ts, true), c)
  {
    InterleaveIsSpacedJoin(ts);
    DecodeIsScan(Interleave(ts, Spaces(ts)));
    DecodeRemovesCodes(Interleave(ts, Spaces(ts)));
  }

  /** A reference names exactly the rule key of the same tokens. */
  lemma SymbolNamesKey(ts: seq<string>)
    ensures Symbol(ts) == "#" + Literal(ts, false) + "#"
  {
  }

  /** No rule key is `origin`: a single token would have been substituted,
      and two or more tokens render either a space or at least the eight
      characters of a code. */
  lemma KeyIsNotOrigin(ts: seq<string>)
    ensures Literal(ts, false) != OriginWord
  {
    KeyIsSpacedJoin(ts);
    var us := SubstituteWordOrigin(ts);
    SubstituteWordOriginRule(ts);
    if |us| >= 2 {
      var rest := SpacedJoin(us[1..]);
      if HasCodePrefix(us[1]) {
        HasCodePrefixIff(us[1]);
        NonEmptyJoinStarts(us[1..]);
        assert |rest| >= CodeWidth;
      } else {
        assert SpacedJoin(us) == us[0] + " " + rest;
        assert SpacedJoin(us)[|us[0]|] == ' ';
      }
    }
  }

  /** A join begins with its first token. */
  lemma NonEmptyJoinStarts(ts: seq<string>)
    requires |ts| > 0
    ensures |SpacedJoin(ts)| >= |ts[0]|
    ensures SpacedJoin(ts)[..|ts[0]|] == ts[0]
  {
  }

  /** The continuation of a window: its first token as terminal text, the
      separator the spacing rule puts after it, then a reference to the key
      of the remaining tokens. */
  lemma NgramShape(w: seq<string>)
    requires |w| >= 2
    ensures Ngram(w) == Decode(w[0]) + Spaces(w)[0] + "#" + Literal(w[1..], false) + "#"
  {
    assert w[..1] == [w[0]];
    InterleaveOne(w[0]);
    var d, sp, k := Decode(w[0]), Spaces(w)[0], Literal(w[1..], false);
    assert Literal(w[..1], true) == d;
    assert sp == Separator(w[1]);
    assert Ngram(w) == d + sp + ("#" + k + "#");
    ConcatAssoc(d + sp, "#" + k, "#");
    ConcatAssoc(d + sp, "#", k);
  }

  lemma ConcatAssoc(a: string, b: string, c: string)
    ensures a + (b + c) == a + b + c
  {
  }

  /** A single token renders as itself. */
  lemma InterleaveOne(t: string)
    ensures Interleave([t], Spaces([t])) == t
  {
    assert Spaces([t]) == [""];
    assert [t][1..] == [];
    assert t + "" + "" == t;
  }
}
