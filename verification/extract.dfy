/**
 The per-line n-gram extractor: the appends one tokenised line makes to the
 grammar, in the order it makes them. Which appends are made is described by
 their kinds alone (`LineKinds`); what each append holds is `Expected` of its
 kind (`LineEntries`).
 */
module Extract {
  import opened Wrappers
  import opened Text
  import opened Punctuation
  import opened Render

  /** The rule that collects the contexts a sentence can begin with. */
  const StartBoundary: string := "start_boundary"

  /** Why an entry was appended: window `window` begins a sentence, window
      `window` continues its context, or the line ends. */
  datatype Kind = SentenceStart(window: nat) | Continuation(window: nat) | Terminal

  /** One append: `expansion` is added to the options of `rule`. */
  datatype Entry = Entry(kind: Kind, rule: string, expansion: string)

  /** `limit`, clamped at zero: the number of windows of `n` tokens. */
  function WindowCount(line: seq<string>, n: nat): nat {
    if |line| + 1 >= n then |line| + 1 - n else 0
  }

  /** `line[i] not in PUNCTUATION` after `line[i-1] in ENDINGS`, or the first
      window: whole-token tests, not the eight-character prefix test. */
  predicate StartsSentence(line: seq<string>, i: nat)
    requires i < |line|
  {
    i == 0 || (EndsSentence(line[i - 1]) && !IsCode(line[i]))
  }

  /** `line[-(n-1):]`: the last `n - 1` tokens, or the whole line when it is
      shorter. */
  function Tail(line: seq<string>, n: nat): (t: seq<string>)
    requires n >= 2
    ensures |t| == if |line| < n - 1 then |line| else n - 1
    ensures t == line[|line| - |t|..]
  {
    if |line| >= n - 1 then line[|line| - (n - 1)..] else line
  }

  /** Whether an entry of this kind can arise from `line`: a window that
      exists (and begins a sentence, for a sentence start), or the line's end. */
  predicate KindValid(line: seq<string>, n: nat, k: Kind)
    requires n >= 2
  {
    match k
    case SentenceStart(i) => i < WindowCount(line, n) && StartsSentence(line, i)
    case Continuation(i) => i < WindowCount(line, n)
    case Terminal => true
  }

  /** `line[i:i+n-1]`: the context of window `i`, whose key the window's
      continuation is filed under. */
  function Context(line: seq<string>, n: nat, i: nat): (c: seq<string>)
    requires n >= 2 && i + n - 1 <= |line|
    ensures |c| == n - 1
  {
    line[i..i + n - 1]
  }

  /** `line[i:i+n]`: window `i`. */
  function Window(line: seq<string>, n: nat, i: nat): (w: seq<string>)
    requires n >= 2 && i + n <= |line|
    ensures |w| == n && w[..n - 1] == Context(line, n, i)
    ensures w[1..] == Context(line, n, i + 1)
  {
    line[i..i + n]
  }

  /** The entry the source appends for each kind: `_symbol` of window `i`'s
      context under `start_boundary`; `_ngram` of window `i` under the key of
      its context; the decoded tail under the key of the tail. */
  function Expected(line: seq<string>, n: nat, k: Kind): Entry
    requires n >= 2 && KindValid(line, n, k)
  {
    match k
    case SentenceStart(i) => Entry(k, StartBoundary, Symbol(Context(line, n, i)))
    case Continuation(i) => Entry(k, Literal(Context(line, n, i), false), Ngram(Window(line, n, i)))
    case Terminal => Entry(k, Literal(Tail(line, n), false), Literal(Tail(line, n), true))
  }

  //
  // Which appends a line makes
  //

  /** The appends of window `i`: a sentence start when the window begins a
      sentence, then the continuation filed under its context. */
  function WindowKinds(line: seq<string>, n: nat, i: nat): seq<Kind>
    requires n >= 2 && i + n <= |line|
  {
    (if StartsSentence(line, i) then [SentenceStart(i)] else []) + [Continuation(i)]
  }

  /** The appends of windows `i`, `i + 1`, … in order. */
  function KindsFrom(line: seq<string>, n: nat, i: nat): seq<Kind>
    requires n >= 2
    decreases |line| - i
  {
    if i + n > |line| then [] else WindowKinds(line, n, i) + KindsFrom(line, n, i + 1)
  }

  /** The appends of a whole line: the windows', then the terminal. */
  function LineKinds(line: seq<string>, n: nat): seq<Kind>
    requires n >= 2
  {
    KindsFrom(line, n, 0) + [Terminal]
  }

  /** Every kind in `ks` can arise from `line`. */
  predicate AllValid(line: seq<string>, n: nat, ks: seq<Kind>)
    requires n >= 2
  {
    forall j :: 0 <= j < |ks| ==> KindValid(line, n, ks[j])
  }

  /** The entries for the kinds `ks`, in order. */
  function Entries(line: seq<string>, n: nat, ks: seq<Kind>): (es: seq<Entry>)
    requires n >= 2 && AllValid(line, n, ks)
    ensures |es| == |ks|
  {
    seq(|ks|, j requires 0 <= j < |ks| => Expected(line, n, ks[j]))
  }

  /** The terminal append that closes every line. */
  function TerminalEntry(line: seq<string>, n: nat): Entry
    requires n >= 2
  {
    Expected(line, n, Terminal)
  }

  /** All appends one line makes, in order. */
  function LineEntries(line: seq<string>, n: nat): seq<Entry>
    requires n >= 2
  {
    LineKindsValid(line, n);
    Entries(line, n, LineKinds(line, n))
  }

  /** The kinds a window appends all belong to that window and can arise. */
  lemma WindowKindsValid(line: seq<string>, n: nat, i: nat)
    requires n >= 2 && i + n <= |line|
    ensures AllValid(line, n, WindowKinds(line, n, i))
    ensures forall j :: 0 <= j < |WindowKinds(line, n, i)| ==>
              WindowKinds(line, n, i)[j] == SentenceStart(i) || WindowKinds(line, n, i)[j] == Continuation(i)
  {
  }

  /** Windows `i` onwards: every kind can arise, belongs to a window at or
      after `i`, and none is a terminal. */
  lemma {:induction false} KindsFromValid(line: seq<string>, n: nat, i: nat)
    requires n >= 2
    ensures AllValid(line, n, KindsFrom(line, n, i))
    ensures forall j :: 0 <= j < |KindsFrom(line, n, i)| ==>
              !KindsFrom(line, n, i)[j].Terminal? && i <= KindsFrom(line, n, i)[j].window
    decreases |line| - i
  {
    if i + n <= |line| {
      KindsFromValid(line, n, i + 1);
      WindowKindsValid(line, n, i);
      var here, rest := WindowKinds(line, n, i), KindsFrom(line, n, i + 1);
      forall j | 0 <= j < |here + rest|
        ensures KindValid(line, n, (here + rest)[j]) && !(here + rest)[j].Terminal? && i <= (here + rest)[j].window
      {
        if j >= |here| {
          assert (here + rest)[j] == rest[j - |here|];
        }
      }
    }
  }

  lemma LineKindsValid(line: seq<string>, n: nat)
    requires n >= 2
    ensures AllValid(line, n, LineKinds(line, n))
  {
    KindsFromValid(line, n, 0);
    var ks := KindsFrom(line, n, 0);
    forall j | 0 <= j < |ks + [Terminal]|
      ensures KindValid(line, n, (ks + [Terminal])[j])
    {
      if j < |ks| {
        assert (ks + [Terminal])[j] == ks[j];
      }
    }
  }

  //
  // What the entries are
  //

  /** The kind of an entry is the kind it was made for. */
  lemma ExpectedKind(line: seq<string>, n: nat, k: Kind)
    requires n >= 2 && KindValid(line, n, k)
    ensures Expected(line, n, k).kind == k
  {
  }

  /** A line's entries are its kinds, each made into the entry the source
      appends for it. */
  lemma LineEntriesFaithful(line: seq<string>, n: nat)
    requires n >= 2
    ensures |LineEntries(line, n)| == |LineKinds(line, n)|
    ensures forall j :: 0 <= j < |LineEntries(line, n)| ==>
              LineEntries(line, n)[j].kind == LineKinds(line, n)[j] &&
              KindValid(line, n, LineKinds(line, n)[j]) &&
              LineEntries(line, n)[j] == Expected(line, n, LineKinds(line, n)[j])
  {
    LineKindsValid(line, n);
    forall j | 0 <= j < |LineKinds(line, n)|
      ensures Expected(line, n, LineKinds(line, n)[j]).kind == LineKinds(line, n)[j]
    {
      ExpectedKind(line, n, LineKinds(line, n)[j]);
    }
  }

  //
  // Counting the appends
  //

  /** The windows of the sentence starts, in order. */
  function StartWindows(ks: seq<Kind>): seq<nat>
    decreases |ks|
  {
    if |ks| == 0 then []
    else (if ks[0].SentenceStart? then [ks[0].window] else []) + StartWindows(ks[1..])
  }

  /** The windows of the continuations, in order. */
  function ContinuationWindows(ks: seq<Kind>): seq<nat>
    decreases |ks|
  {
    if |ks| == 0 then []
    else (if ks[0].Continuation? then [ks[0].window] else []) + ContinuationWindows(ks[1..])
  }

  /** How many times `k` occurs. */
  function Count(ks: seq<Kind>, k: Kind): nat
    decreases |ks|
  {
    if |ks| == 0 then 0 else (if ks[0] == k then 1 else 0) + Count(ks[1..], k)
  }

  /** `range(a, b)`. */
  function Range(a: nat, b: nat): seq<nat>
    decreases b - a
  {
    if a >= b then [] else [a] + Range(a + 1, b)
  }

  lemma {:induction false} RangeIndex(a: nat, b: nat)
    requires a <= b
    ensures |Range(a, b)| == b - a
    ensures forall k :: 0 <= k < b - a ==> Range(a, b)[k] == a + k
    decreases b - a
  {
    if a < b {
      RangeIndex(a + 1, b);
    }
  }

  lemma {:induction false} StartsAppend(a: seq<Kind>, b: seq<Kind>)
    ensures StartWindows(a + b) == StartWindows(a) + StartWindows(b)
    decreases |a|
  {
    if |a| == 0 {
      assert a + b == b;
    } else {
      var h := if a[0].SentenceStart? then [a[0].window] else [];
      assert (a + b)[0] == a[0] && (a + b)[1..] == a[1..] + b;
      StartsAppend(a[1..], b);
      calc {
        StartWindows(a + b);
        h + StartWindows(a[1..] + b);
        h + (StartWindows(a[1..]) + StartWindows(b));
        (h + StartWindows(a[1..])) + StartWindows(b);
      }
    }
  }

  /** Membership in a concatenation of window lists. */
  lemma InConcat(x: seq<nat>, y: seq<nat>, w: nat)
    ensures w in x + y <==> w in x || w in y
  {
  }

  lemma {:induction false} ContinuationsAppend(a: seq<Kind>, b: seq<Kind>)
    ensures ContinuationWindows(a + b) == ContinuationWindows(a) + ContinuationWindows(b)
    decreases |a|
  {
    if |a| == 0 {
      assert a + b == b;
    } else {
      var h := if a[0].Continuation? then [a[0].window] else [];
      assert (a + b)[0] == a[0] && (a + b)[1..] == a[1..] + b;
      ContinuationsAppend(a[1..], b);
      calc {
        ContinuationWindows(a + b);
        h + ContinuationWindows(a[1..] + b);
        h + (ContinuationWindows(a[1..]) + ContinuationWindows(b));
        (h + ContinuationWindows(a[1..])) + ContinuationWindows(b);
      }
    }
  }

  lemma {:induction false} CountAppend(a: seq<Kind>, b: seq<Kind>, k: Kind)
    ensures Count(a + b, k) == Count(a, k) + Count(b, k)
    decreases |a|
  {
    if |a| == 0 {
      assert a + b == b;
    } else {
      assert (a + b)[1..] == a[1..] + b;
      CountAppend(a[1..], b, k);
    }
  }

  lemma ProjectionsSingle(k: Kind)
    ensures StartWindows([k]) == if k.SentenceStart? then [k.window] else []
    ensures ContinuationWindows([k]) == if k.Continuation? then [k.window] else []
    ensures Count([k], Terminal) == if k == Terminal then 1 else 0
  {
    assert [k][1..] == [];
  }

  /** What one window contributes. */
  lemma WindowProjections(line: seq<string>, n: nat, i: nat)
    requires n >= 2 && i + n <= |line|
    ensures StartWindows(WindowKinds(line, n, i)) == if StartsSentence(line, i) then [i] else []
    ensures ContinuationWindows(WindowKinds(line, n, i)) == [i]
    ensures Count(WindowKinds(line, n, i), Terminal) == 0
  {
    var start := if StartsSentence(line, i) then [SentenceStart(i)] else [];
    StartsAppend(start, [Continuation(i)]);
    ContinuationsAppend(start, [Continuation(i)]);
    CountAppend(start, [Continuation(i)], Terminal);
    ProjectionsSingle(Continuation(i));
    if StartsSentence(line, i) {
      ProjectionsSingle(SentenceStart(i));
    }
  }

  lemma {:induction false} KindsFromNoTerminal(line: seq<string>, n: nat, i: nat)
    requires n >= 2
    ensures Count(KindsFrom(line, n, i), Terminal) == 0
    decreases |line| - i
  {
    if i + n <= |line| {
      KindsFromNoTerminal(line, n, i + 1);
      WindowProjections(line, n, i);
      CountAppend(WindowKinds(line, n, i), KindsFrom(line, n, i + 1), Terminal);
    }
  }

  /** Windows `i` onwards: one continuation per window, in order. */
  lemma {:induction false} KindsFromContinuations(line: seq<string>, n: nat, i: nat)
    requires n >= 2 && i <= WindowCount(line, n)
    ensures ContinuationWindows(KindsFrom(line, n, i)) == Range(i, WindowCount(line, n))
    decreases |line| - i
  {
    if i + n <= |line| {
      KindsFromContinuations(line, n, i + 1);
      WindowProjections(line, n, i);
      ContinuationsAppend(WindowKinds(line, n, i), KindsFrom(line, n, i + 1));
    }
  }

  /** The windows from `i` on that begin a sentence, in order. */
  function SentenceStarts(line: seq<string>, n: nat, i: nat): seq<nat>
    requires n >= 2
    decreases |line| - i
  {
    if i + n > |line| then []
    else (if StartsSentence(line, i) then [i] else []) + SentenceStarts(line, n, i + 1)
  }

  /** Windows `i` onwards record a sentence start for exactly the windows
      that begin a sentence, in order. */
  lemma {:induction false} KindsFromStarts(line: seq<string>, n: nat, i: nat)
    requires n >= 2
    ensures StartWindows(KindsFrom(line, n, i)) == SentenceStarts(line, n, i)
    decreases |line| - i
  {
    if i + n <= |line| {
      KindsFromStarts(line, n, i + 1);
      StartsAppend(WindowKinds(line, n, i), KindsFrom(line, n, i + 1));
      WindowProjections(line, n, i);
    }
  }

  /** A window from `i` on is listed exactly when it begins a sentence. */
  lemma {:induction false} SentenceStartsExactly(line: seq<string>, n: nat, i: nat)
    requires n >= 2
    ensures forall w: nat :: w in SentenceStarts(line, n, i) <==> i <= w < WindowCount(line, n) && StartsSentence(line, w)
    decreases |line| - i
  {
    if i + n <= |line| {
      SentenceStartsExactly(line, n, i + 1);
      var here := if StartsSentence(line, i) then [i] else [];
      var rest := SentenceStarts(line, n, i + 1);
      assert SentenceStarts(line, n, i) == here + rest;
      forall w: nat
        ensures w in here + rest <==> i <= w < WindowCount(line, n) && StartsSentence(line, w)
      {
        InConcat(here, rest, w);
      }
    }
  }

  /** The listed windows are strictly increasing, so no window is listed
      twice. */
  lemma {:induction false} SentenceStartsIncreasing(line: seq<string>, n: nat, i: nat)
    requires n >= 2
    ensures forall w :: w in SentenceStarts(line, n, i) ==> i <= w
    ensures forall a, b :: 0 <= a < b < |SentenceStarts(line, n, i)| ==> SentenceStarts(line, n, i)[a] < SentenceStarts(line, n, i)[b]
    decreases |line| - i
  {
    if i + n <= |line| {
      SentenceStartsIncreasing(line, n, i + 1);
      var sw := SentenceStarts(line, n, i + 1);
      assert forall a :: 0 <= a < |sw| ==> sw[a] in sw;
    }
  }

  /** Continuations come one per window, in window order, so a line of `L`
      tokens yields exactly `max(0, L - n + 1)` of them. */
  lemma LineContinuations(line: seq<string>, n: nat)
    requires n >= 2
    ensures ContinuationWindows(LineKinds(line, n)) == Range(0, WindowCount(line, n))
    ensures |ContinuationWindows(LineKinds(line, n))| == if |line| + 1 >= n then |line| + 1 - n else 0
    ensures forall k :: 0 <= k < WindowCount(line, n) ==> ContinuationWindows(LineKinds(line, n))[k] == k
  {
    KindsFromContinuations(line, n, 0);
    ContinuationsAppend(KindsFrom(line, n, 0), [Terminal]);
    ProjectionsSingle(Terminal);
    RangeIndex(0, WindowCount(line, n));
  }

  /** The sentence starts are exactly the windows that begin a sentence,
      each once and in window order; a line shorter than `n` has none. */
  lemma LineStarts(line: seq<string>, n: nat)
    requires n >= 2
    ensures forall w: nat :: w in StartWindows(LineKinds(line, n)) <==> w < WindowCount(line, n) && StartsSentence(line, w)
    ensures forall a, b :: 0 <= a < b < |StartWindows(LineKinds(line, n))| ==>
              StartWindows(LineKinds(line, n))[a] < StartWindows(LineKinds(line, n))[b]
    ensures |line| < n ==> StartWindows(LineKinds(line, n)) == []
  {
    KindsFromStarts(line, n, 0);
    SentenceStartsExactly(line, n, 0);
    SentenceStartsIncreasing(line, n, 0);
    StartsAppend(KindsFrom(line, n, 0), [Terminal]);
    ProjectionsSingle(Terminal);
  }

  /** Every line makes exactly one terminal append, and makes it last. */
  lemma LineTerminal(line: seq<string>, n: nat)
    requires n >= 2
    ensures Count(LineKinds(line, n), Terminal) == 1
    ensures |LineEntries(line, n)| > 0 && LineEntries(line, n)[|LineEntries(line, n)| - 1] == TerminalEntry(line, n)
  {
    KindsFromNoTerminal(line, n, 0);
    CountAppend(KindsFrom(line, n, 0), [Terminal], Terminal);
    ProjectionsSingle(Terminal);
    LineEntriesFaithful(line, n);
  }

  /** The terminal of an empty line is filed under the empty key with the
      empty string as its expansion. */
  lemma EmptyLineTerminal(n: nat)
    requires n >= 2
    ensures LineEntries([], n) == [Entry(Terminal, "", "")]
  {
    assert LineKinds([], n) == [Terminal];
    assert Tail([], n) == [];
    assert Interleave([], Spaces([])) == "";
    assert Interleave(SubstituteWordOrigin([]), Spaces([])) == "";
    assert Decode("") == "" by {
      ReplaceEachAbsent("", Table);
    }
  }

  //
  // References
  //

  /** `x` ends with a reference `#key#` to the rule `key`. */
  ghost predicate EndsWithReference(x: string, key: string) {
    |x| >= |key| + 2 && x[|x| - (|key| + 2)..] == "#" + key + "#"
  }

  /** Whether an entry files its expansion under a context or tail key (as
      opposed to `start_boundary`). */
  predicate RegistersKey(e: Entry) {
    !e.kind.SentenceStart?
  }

  /** A window listed among the continuations has a kind at some index. */
  lemma {:induction false} ContinuationFound(ks: seq<Kind>, k: nat)
    ensures k in ContinuationWindows(ks) ==> exists j :: 0 <= j < |ks| && ks[j] == Continuation(k)
    decreases |ks|
  {
    if |ks| > 0 && ks[0] != Continuation(k) {
      ContinuationFound(ks[1..], k);
      if k in ContinuationWindows(ks[1..]) {
        var j :| 0 <= j < |ks[1..]| && ks[1..][j] == Continuation(k);
        assert ks[j + 1] == Continuation(k);
      }
    }
  }

  /** A window listed among the sentence starts has a kind at some index. */
  lemma {:induction false} StartFound(ks: seq<Kind>, k: nat)
    ensures k in StartWindows(ks) ==> exists j :: 0 <= j < |ks| && ks[j] == SentenceStart(k)
    decreases |ks|
  {
    if |ks| > 0 && ks[0] != SentenceStart(k) {
      StartFound(ks[1..], k);
      if k in StartWindows(ks[1..]) {
        var j :| 0 <= j < |ks[1..]| && ks[1..][j] == SentenceStart(k);
        assert ks[j + 1] == SentenceStart(k);
      }
    }
  }

  lemma EndsWithSymbol(prefix: string, ts: seq<string>)
    ensures EndsWithReference(prefix + Symbol(ts), Literal(ts, false))
  {
    SymbolNamesKey(ts);
    var x, sym := prefix + Symbol(ts), Symbol(ts);
    assert x[|x| - |sym|..] == sym;
  }

  /** Every `#X#` a line appends names a key the same line registers: a
      sentence start refers to its window's continuation key; a continuation
      refers to the next window's key, or to the tail key after the last
      window. */
  lemma LineReferencesResolve(line: seq<string>, n: nat)
    requires n >= 2
    ensures forall j :: 0 <= j < |LineEntries(line, n)| && !LineEntries(line, n)[j].kind.Terminal? ==>
              exists m :: 0 <= m < |LineEntries(line, n)| && RegistersKey(LineEntries(line, n)[m])
                          && EndsWithReference(LineEntries(line, n)[j].expansion, LineEntries(line, n)[m].rule)
  {
    var es := LineEntries(line, n);
    LineEntriesFaithful(line, n);
    forall j | 0 <= j < |es| && !es[j].kind.Terminal?
      ensures exists m :: 0 <= m < |es| && RegistersKey(es[m]) && EndsWithReference(es[j].expansion, es[m].rule)
    {
      var m := ReferenceOf(line, n, LineKinds(line, n)[j]);
      assert RegistersKey(es[m]);
    }
  }

  /** The index of the entry a non-terminal kind refers to, and the
      reference itself. */
  lemma ReferenceOf(line: seq<string>, n: nat, k: Kind) returns (m: nat)
    requires n >= 2 && KindValid(line, n, k) && !k.Terminal?
    ensures m < |LineEntries(line, n)| && !LineKinds(line, n)[m].SentenceStart?
    ensures EndsWithReference(Expected(line, n, k).expansion, LineEntries(line, n)[m].rule)
  {
    match k
    case SentenceStart(i) =>
      m := ReferenceTarget(line, n, Some(i));
      StartReference(line, n, i);
    case Continuation(i) =>
      if i + 1 < WindowCount(line, n) {
        m := ReferenceTarget(line, n, Some(i + 1));
      } else {
        m := ReferenceTarget(line, n, None);
      }
      ContinuationReference(line, n, i);
  }

  /** The index of the continuation of window `k`, or of the terminal when
      there is no window. */
  lemma ReferenceTarget(line: seq<string>, n: nat, k: Option<nat>) returns (m: nat)
    requires n >= 2
    requires k.Some? ==> k.value < WindowCount(line, n)
    ensures m < |LineEntries(line, n)| && !LineKinds(line, n)[m].SentenceStart?
    ensures LineEntries(line, n)[m] == if k.Some? then Expected(line, n, Continuation(k.value)) else TerminalEntry(line, n)
  {
    var ks := LineKinds(line, n);
    LineEntriesFaithful(line, n);
    if k.Some? {
      LineContinuations(line, n);
      assert ContinuationWindows(ks)[k.value] == k.value;
      ContinuationFound(ks, k.value);
      m :| 0 <= m < |ks| && ks[m] == Continuation(k.value);
    } else {
      LineTerminal(line, n);
      m := |ks| - 1;
      assert ks[m] == Terminal;
    }
  }

  lemma StartReference(line: seq<string>, n: nat, i: nat)
    requires n >= 2 && i < WindowCount(line, n) && StartsSentence(line, i)
    ensures EndsWithReference(Expected(line, n, SentenceStart(i)).expansion, Expected(line, n, Continuation(i)).rule)
  {
    var context := Context(line, n, i);
    EndsWithSymbol("", context);
    assert "" + Symbol(context) == Symbol(context);
  }

  lemma ContinuationReference(line: seq<string>, n: nat, i: nat)
    requires n >= 2 && i < WindowCount(line, n)
    ensures i + 1 < WindowCount(line, n) ==>
              EndsWithReference(Expected(line, n, Continuation(i)).expansion, Expected(line, n, Continuation(i + 1)).rule)
    ensures i + 1 >= WindowCount(line, n) ==>
              EndsWithReference(Expected(line, n, Continuation(i)).expansion, TerminalEntry(line, n).rule)
  {
    var key := Literal(Context(line, n, i + 1), false);
    ContinuationEndsWithNext(line, n, i);
    if i + 1 < WindowCount(line, n) {
      assert Expected(line, n, Continuation(i + 1)).rule == key;
    } else {
      LastContextIsTail(line, n, i);
    }
  }

  /** The continuation of window `i` ends with a reference to the context
      that follows it. */
  lemma ContinuationEndsWithNext(line: seq<string>, n: nat, i: nat)
    requires n >= 2 && i < WindowCount(line, n)
    ensures EndsWithReference(Expected(line, n, Continuation(i)).expansion, Literal(Context(line, n, i + 1), false))
  {
    var w := Window(line, n, i);
    assert Expected(line, n, Continuation(i)).expansion == Ngram(w);
    NgramEndsWithReference(w);
  }

  /** After the last window, the next context is the tail. */
  lemma LastContextIsTail(line: seq<string>, n: nat, i: nat)
    requires n >= 2 && i < WindowCount(line, n) && i + 1 >= WindowCount(line, n)
    ensures TerminalEntry(line, n).rule == Literal(Context(line, n, i + 1), false)
  {
    assert Tail(line, n) == Context(line, n, i + 1);
  }

  /** A continuation ends with a reference to the key of its window's last
      `n - 1` tokens. */
  lemma NgramEndsWithReference(w: seq<string>)
    requires |w| >= 2
    ensures EndsWithReference(Ngram(w), Literal(w[1..], false))
  {
    EndsWithSymbol(Literal(w[..1], true) + Separator(w[1]), w[1..]);
  }

  /** No entry of any line is filed under `origin`. */
  lemma LineNeverFilesOrigin(line: seq<string>, n: nat)
    requires n >= 2
    ensures forall j :: 0 <= j < |LineEntries(line, n)| ==> LineEntries(line, n)[j].rule != OriginWord
  {
    LineEntriesFaithful(line, n);
    forall j | 0 <= j < |LineEntries(line, n)|
      ensures LineEntries(line, n)[j].rule != OriginWord
    {
      RuleIsNotOrigin(line, n, LineKinds(line, n)[j]);
    }
  }

  lemma RuleIsNotOrigin(line: seq<string>, n: nat, k: Kind)
    requires n >= 2 && KindValid(line, n, k)
    ensures Expected(line, n, k).rule != OriginWord
  {
    match k
    case SentenceStart(i) =>
    case Continuation(i) => KeyIsNotOrigin(Context(line, n, i));
    case Terminal => KeyIsNotOrigin(Tail(line, n));
  }
}
