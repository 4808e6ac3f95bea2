/**
 Grammar assembly: the `origin` seed, the appends of every line folded into
 one rule table, the reduction of every rule, and the command line's refusal
 of n-grams shorter than two.
 */
module Grammar {
  import opened Wrappers
  import opened Render
  import opened Tokenizer
  import opened Extract
  import opened Reduce

  /** Rule name to options, as in the JSON output. */
  type Rules = map<string, seq<string>>

  /** `tracery_dict['origin'].append(_symbol(['start_boundary']))` on the
      empty table. */
  function Seed(): Rules {
    map[OriginWord := [Symbol([StartBoundary])]]
  }

  /** `tracery_dict[rule].append(expansion)` on a `defaultdict(list)`. */
  function Append(g: Rules, rule: string, expansion: string): Rules {
    g[rule := (if rule in g then g[rule] else []) + [expansion]]
  }

  /** The appends `es`, made in order. */
  function AppendAll(g: Rules, es: seq<Entry>): Rules
    decreases |es|
  {
    if |es| == 0 then g else AppendAll(Append(g, es[0].rule, es[0].expansion), es[1..])
  }

  /** The appends of each tokenised line. */
  function PerLine(lines: seq<seq<string>>, n: nat): (parts: seq<seq<Entry>>)
    requires n >= 2
    ensures |parts| == |lines|
  {
    seq(|lines|, k requires 0 <= k < |lines| => LineEntries(lines[k], n))
  }

  /** The parts one after another. */
  function Concat(parts: seq<seq<Entry>>): seq<Entry>
    decreases |parts|
  {
    if |parts| == 0 then [] else parts[0] + Concat(parts[1..])
  }

  /** The appends of every tokenised line, line after line. */
  function CorpusEntries(lines: seq<seq<string>>, n: nat): seq<Entry>
    requires n >= 2
  {
    Concat(PerLine(lines, n))
  }

  /** The grammar of the tokenised lines before reduction. */
  function Accumulate(lines: seq<seq<string>>, n: nat): Rules
    requires n >= 2
  {
    AppendAll(Seed(), CorpusEntries(lines, n))
  }

  /** Every line of the corpus, tokenised. */
  function Tokenized(corpus: seq<string>, lowercase: bool): (lines: seq<seq<string>>)
    ensures |lines| == |corpus|
  {
    seq(|corpus|, k requires 0 <= k < |corpus| => Tokenize(corpus[k], lowercase))
  }

  /** `corpus_to_tracery_json` up to the JSON text: the reduced grammar. */
  function Compile(corpus: seq<string>, n: nat, lowercase: bool): Rules
    requires n >= 2
  {
    ReduceGrammar(Accumulate(Tokenized(corpus, lowercase), n))
  }

  /** The command line: an n-gram size below two is refused with the
      message the argument parser prints. */
  function CompileCorpus(corpus: seq<string>, n: int, lowercase: bool): (r: Result<Rules>)
    ensures r.Failure? <==> n < 2
    ensures r.Failure? ==> r.message == "Size of n-gram must be at least 2"
    ensures r.Success? ==> n >= 2 && r.value == Compile(corpus, n, lowercase)
  {
    if n < 2 then Failure("Size of n-gram must be at least 2") else Success(Compile(corpus, n, lowercase))
  }

  //
  // Properties
  //

  /** The expansions appended to `rule`, in order. */
  function Filed(es: seq<Entry>, rule: string): seq<string>
    decreases |es|
  {
    if |es| == 0 then [] else (if es[0].rule == rule then [es[0].expansion] else []) + Filed(es[1..], rule)
  }

  /** The appends to a `defaultdict(list)`: a rule holds its old options
      followed by everything filed under it, in order; the rules are the old
      ones and those something was filed under. */
  lemma AppendAllFiles(g: Rules, es: seq<Entry>)
    ensures forall rule :: rule in AppendAll(g, es) <==> rule in g || exists k :: 0 <= k < |es| && es[k].rule == rule
    ensures forall rule :: rule in AppendAll(g, es) ==>
              AppendAll(g, es)[rule] == (if rule in g then g[rule] else []) + Filed(es, rule)
  {
    AppendAllKeys(g, es);
    AppendAllValues(g, es);
  }

  lemma {:induction false} AppendAllKeys(g: Rules, es: seq<Entry>)
    ensures forall rule :: rule in AppendAll(g, es) <==> rule in g || exists k :: 0 <= k < |es| && es[k].rule == rule
    decreases |es|
  {
    if |es| > 0 {
      var g1 := Append(g, es[0].rule, es[0].expansion);
      AppendAllKeys(g1, es[1..]);
      forall rule
        ensures rule in AppendAll(g, es) <==> rule in g || exists k :: 0 <= k < |es| && es[k].rule == rule
      {
        if exists k :: 0 <= k < |es[1..]| && es[1..][k].rule == rule {
          var k :| 0 <= k < |es[1..]| && es[1..][k].rule == rule;
          assert es[k + 1].rule == rule;
        }
        if exists k :: 0 <= k < |es| && es[k].rule == rule {
          var k :| 0 <= k < |es| && es[k].rule == rule;
          if k > 0 {
            assert es[1..][k - 1].rule == rule;
          }
        }
      }
    }
  }

  lemma {:induction false} AppendAllValues(g: Rules, es: seq<Entry>)
    ensures forall rule :: rule in AppendAll(g, es) ==>
              AppendAll(g, es)[rule] == (if rule in g then g[rule] else []) + Filed(es, rule)
    decreases |es|
  {
    if |es| > 0 {
      var g1 := Append(g, es[0].rule, es[0].expansion);
      AppendAllValues(g1, es[1..]);
      forall rule | rule in AppendAll(g, es)
        ensures AppendAll(g, es)[rule] == (if rule in g then g[rule] else []) + Filed(es, rule)
      {
        var before := if rule in g then g[rule] else [];
        var later := Filed(es[1..], rule);
        if es[0].rule == rule {
          assert g1[rule] == before + [es[0].expansion];
          assert Filed(es, rule) == [es[0].expansion] + later;
          assert (before + [es[0].expansion]) + later == before + ([es[0].expansion] + later);
        } else {
          assert Filed(es, rule) == later;
          assert (rule in g1) == (rule in g);
        }
      }
    }
  }

  /** Folding the lines one after another is folding their appends in one
      go. */
  lemma {:induction false} AppendAllConcat(g: Rules, a: seq<Entry>, b: seq<Entry>)
    ensures AppendAll(AppendAll(g, a), b) == AppendAll(g, a + b)
    decreases |a|
  {
    if |a| == 0 {
      assert a + b == b;
    } else {
      assert (a + b)[1..] == a[1..] + b;
      AppendAllConcat(Append(g, a[0].rule, a[0].expansion), a[1..], b);
    }
  }

  /** No entry filed under `origin` means nothing filed under it. */
  lemma {:induction false} FiledNone(es: seq<Entry>, rule: string)
    ensures (forall k :: 0 <= k < |es| ==> es[k].rule != rule) ==> Filed(es, rule) == []
    decreases |es|
  {
    if |es| > 0 {
      FiledNone(es[1..], rule);
    }
  }

  /** Nothing in the parts has `rule` means nothing in their concatenation
      has it. */
  lemma {:induction false} ConcatAvoids(parts: seq<seq<Entry>>, rule: string)
    requires forall i, k :: 0 <= i < |parts| && 0 <= k < |parts[i]| ==> parts[i][k].rule != rule
    ensures forall k :: 0 <= k < |Concat(parts)| ==> Concat(parts)[k].rule != rule
    decreases |parts|
  {
    if |parts| > 0 {
      var here: seq<Entry> := parts[0];
      var rest: seq<Entry> := Concat(parts[1..]);
      assert forall i, k :: 0 <= i < |parts[1..]| && 0 <= k < |parts[1..][i]| ==> parts[1..][i][k].rule != rule by {
        forall i, k | 0 <= i < |parts[1..]| && 0 <= k < |parts[1..][i]|
          ensures parts[1..][i][k].rule != rule
        {
          assert parts[1..][i] == parts[i + 1];
        }
      }
      ConcatAvoids(parts[1..], rule);
      forall k | 0 <= k < |here + rest|
        ensures (here + rest)[k].rule != rule
      {
        if k < |here| {
          assert (here + rest)[k] == parts[0][k];
        } else {
          assert (here + rest)[k] == rest[k - |here|];
        }
      }
    }
  }

  /** A part's entries are entries of the concatenation. */
  lemma {:induction false} ConcatHas(parts: seq<seq<Entry>>, i: nat)
    requires i < |parts|
    ensures forall e :: e in parts[i] ==> e in Concat(parts)
    decreases i
  {
    if i > 0 {
      assert parts[1..][i - 1] == parts[i];
      ConcatHas(parts[1..], i - 1);
    }
  }

  /** Concatenating from part `j` on is part `j` and then the rest. */
  lemma ConcatStep(parts: seq<seq<Entry>>, j: nat)
    requires j < |parts|
    ensures Concat(parts[j..]) == parts[j] + Concat(parts[j + 1..])
  {
    assert parts[j..][1..] == parts[j + 1..];
  }

  /** No line files anything under `origin`. */
  lemma CorpusNeverFilesOrigin(lines: seq<seq<string>>, n: nat)
    requires n >= 2
    ensures forall k :: 0 <= k < |CorpusEntries(lines, n)| ==> CorpusEntries(lines, n)[k].rule != OriginWord
  {
    var parts: seq<seq<Entry>> := PerLine(lines, n);
    forall i, k | 0 <= i < |parts| && 0 <= k < |parts[i]|
      ensures parts[i][k].rule != OriginWord
    {
      LineNeverFilesOrigin(lines[i], n);
    }
    ConcatAvoids(parts, OriginWord);
  }

  /** `origin` keeps exactly its seed through the accumulation... */
  lemma OriginStaysAccumulated(lines: seq<seq<string>>, n: nat)
    requires n >= 2
    ensures OriginWord in Accumulate(lines, n)
    ensures Accumulate(lines, n)[OriginWord] == ["#start_boundary#"]
  {
    var es := CorpusEntries(lines, n);
    CorpusNeverFilesOrigin(lines, n);
    FiledNone(es, OriginWord);
    AppendAllFiles(Seed(), es);
    StartBoundarySymbol();
  }

  /** ...and through the reduction: the `origin` rule of every compiled
      corpus is exactly `["#start_boundary#"]`. */
  lemma OriginStaysSeed(corpus: seq<string>, n: nat, lowercase: bool)
    requires n >= 2
    ensures OriginWord in Compile(corpus, n, lowercase)
    ensures Compile(corpus, n, lowercase)[OriginWord] == ["#start_boundary#"]
  {
    OriginStaysAccumulated(Tokenized(corpus, lowercase), n);
    ReduceSingle(["#start_boundary#"]);
  }

  lemma StartBoundarySymbol()
    ensures Symbol([StartBoundary]) == "#start_boundary#"
  {
    assert Spaces([StartBoundary]) == [""];
    assert SubstituteWordOrigin([StartBoundary]) == [StartBoundary];
    assert Interleave([StartBoundary], [""]) == StartBoundary + "" + "";
  }

  /** Every line's appends land in the corpus's appends. */
  lemma LineInCorpus(lines: seq<seq<string>>, n: nat, i: nat)
    requires n >= 2 && i < |lines|
    ensures forall e :: e in LineEntries(lines[i], n) ==> e in CorpusEntries(lines, n)
  {
    ConcatHas(PerLine(lines, n), i);
  }

  lemma {:induction false} FiledHas(es: seq<Entry>, e: Entry)
    requires e in es
    ensures e.expansion in Filed(es, e.rule)
    decreases |es|
  {
    if es[0] != e {
      FiledHas(es[1..], e);
    }
  }

  /** The rules of the grammar are `origin` and every key some line files
      something under. */
  lemma RuleKeys(lines: seq<seq<string>>, n: nat)
    requires n >= 2
    ensures forall rule :: rule in ReduceGrammar(Accumulate(lines, n)) <==>
              rule == OriginWord || exists k :: 0 <= k < |CorpusEntries(lines, n)| && CorpusEntries(lines, n)[k].rule == rule
  {
    AppendAllFiles(Seed(), CorpusEntries(lines, n));
  }

  /** Whatever a line appends survives into the reduced grammar under the
      same rule, possibly with fewer copies. */
  lemma EntryKept(lines: seq<seq<string>>, n: nat, e: Entry)
    requires n >= 2 && e in CorpusEntries(lines, n)
    ensures e.rule in ReduceGrammar(Accumulate(lines, n))
    ensures e.expansion in ReduceGrammar(Accumulate(lines, n))[e.rule]
  {
    var es := CorpusEntries(lines, n);
    AppendAllFiles(Seed(), es);
    var k :| 0 <= k < |es| && es[k] == e;
    assert e.rule in Accumulate(lines, n);
    FiledHas(es, e);
    ReduceKeepsOptions(Accumulate(lines, n)[e.rule]);
  }

  /** Referential integrity of the compiled grammar: every option a line
      contributes, other than a terminal, survives under its rule and ends
      with a reference `#key#` to a rule the grammar defines. */
  /** Every context that begins a sentence in some line is among the options
      of `start_boundary` in the compiled grammar. */
  lemma StartsKept(lines: seq<seq<string>>, n: nat, i: nat, w: nat)
    requires n >= 2 && i < |lines| && w < WindowCount(lines[i], n) && StartsSentence(lines[i], w)
    ensures StartBoundary in ReduceGrammar(Accumulate(lines, n))
    ensures Symbol(Context(lines[i], n, w)) in ReduceGrammar(Accumulate(lines, n))[StartBoundary]
  {
    var line := lines[i];
    var ks := LineKinds(line, n);
    LineStarts(line, n);
    StartFound(ks, w);
    var j :| 0 <= j < |ks| && ks[j] == SentenceStart(w);
    LineEntriesFaithful(line, n);
    var e := LineEntries(line, n)[j];
    assert e == Entry(SentenceStart(w), StartBoundary, Symbol(Context(line, n, w)));
    LineInCorpus(lines, n, i);
    EntryKept(lines, n, e);
  }

  lemma ReferencesResolve(lines: seq<seq<string>>, n: nat, i: nat)
    requires n >= 2 && i < |lines|
    ensures forall j :: 0 <= j < |LineEntries(lines[i], n)| && !LineEntries(lines[i], n)[j].kind.Terminal? ==>
              var e := LineEntries(lines[i], n)[j];
              e.rule in ReduceGrammar(Accumulate(lines, n)) &&
              e.expansion in ReduceGrammar(Accumulate(lines, n))[e.rule] &&
              exists key :: key in ReduceGrammar(Accumulate(lines, n)) && EndsWithReference(e.expansion, key)
  {
    var es := LineEntries(lines[i], n);
    LineInCorpus(lines, n, i);
    LineReferencesResolve(lines[i], n);
    forall j | 0 <= j < |es| && !es[j].kind.Terminal?
      ensures es[j].rule in ReduceGrammar(Accumulate(lines, n))
      ensures es[j].expansion in ReduceGrammar(Accumulate(lines, n))[es[j].rule]
      ensures exists key :: key in ReduceGrammar(Accumulate(lines, n)) && EndsWithReference(es[j].expansion, key)
    {
      var m :| 0 <= m < |es| && RegistersKey(es[m]) && EndsWithReference(es[j].expansion, es[m].rule);
      EntryResolves(lines, n, es, es[j], es[m]);
    }
  }

  lemma EntryResolves(lines: seq<seq<string>>, n: nat, es: seq<Entry>, e: Entry, target: Entry)
    requires n >= 2 && (forall x :: x in es ==> x in CorpusEntries(lines, n))
    requires e in es && target in es && EndsWithReference(e.expansion, target.rule)
    ensures e.rule in ReduceGrammar(Accumulate(lines, n))
    ensures e.expansion in ReduceGrammar(Accumulate(lines, n))[e.rule]
    ensures exists key :: key in ReduceGrammar(Accumulate(lines, n)) && EndsWithReference(e.expansion, key)
  {
    EntryKept(lines, n, e);
    EntryKept(lines, n, target);
  }

  //
  // The loops of `corpus_to_tracery_json`
  //

  /** The source's loop over the lines, each already tokenised, appending
      each line's entries to the table as it goes; the result is the
      accumulated grammar. */
  method BuildRules(lines: seq<seq<string>>, n: nat) returns (g: Rules)
    requires n >= 2
    ensures g == Accumulate(lines, n)
  {
    ghost var parts := PerLine(lines, n);
    g := map[OriginWord := [Symbol([StartBoundary])]];
    var j := 0;
    while j < |lines|
      invariant j <= |lines|
      invariant AppendAll(g, Concat(parts[j..])) == Accumulate(lines, n)
    {
      ConcatStep(parts, j);
      AppendAllConcat(g, parts[j], Concat(parts[j + 1..]));
      g := AddLine(g, lines[j], n);
      j := j + 1;
    }
    assert parts[j..] == [];
  }

  /** The source's loop over the windows of one tokenised line followed by
      the terminal append. */
  method AddLine(g0: Rules, line: seq<string>, n: nat) returns (g: Rules)
    requires n >= 2
    ensures g == AppendAll(g0, LineEntries(line, n))
  {
    g := g0;
    var limit := |line| - n + 1;
    var i := 0;
    RestStart(line, n);
    while i < limit
      invariant 0 <= i && (limit >= 0 ==> i <= limit)
      invariant AppendAll(g, Rest(line, n, i)) == AppendAll(g0, LineEntries(line, n))
    {
      WindowsSplit(g, line, n, i);
      g := AddWindow(g, line, n, i);
      i := i + 1;
    }
    LastAppend(g, line, n, i);
    var last := TerminalEntry(line, n);
    g := Append(g, last.rule, last.expansion);
  }

  /** The entries of windows `i` onward and of the terminal. */
  ghost function Rest(line: seq<string>, n: nat, i: nat): (es: seq<Entry>)
    requires n >= 2
    ensures |es| == |KindsFrom(line, n, i)| + 1
  {
    RemainingValid(line, n, i);
    Entries(line, n, KindsFrom(line, n, i) + [Terminal])
  }

  /** The entries of window `i` alone. */
  ghost function WindowEntries(line: seq<string>, n: nat, i: nat): (es: seq<Entry>)
    requires n >= 2 && i + n <= |line|
    ensures |es| == |WindowKinds(line, n, i)|
  {
    WindowKindsValid(line, n, i);
    Entries(line, n, WindowKinds(line, n, i))
  }

  lemma RestStart(line: seq<string>, n: nat)
    requires n >= 2
    ensures Rest(line, n, 0) == LineEntries(line, n)
  {
  }

  /** One pass of the window loop: the append under `start_boundary` when
      the window begins a sentence, then the append under its context. */
  method AddWindow(g0: Rules, line: seq<string>, n: nat, i: nat) returns (g: Rules)
    requires n >= 2 && i + n <= |line|
    ensures g == AppendAll(g0, WindowEntries(line, n, i))
  {
    g := g0;
    if StartsSentence(line, i) {
      var start := Expected(line, n, SentenceStart(i));
      g := Append(g, start.rule, start.expansion);
    }
    var next := Expected(line, n, Continuation(i));
    g := Append(g, next.rule, next.expansion);
    WindowAppends(g0, line, n, i);
  }

  lemma RemainingValid(line: seq<string>, n: nat, i: nat)
    requires n >= 2
    ensures AllValid(line, n, KindsFrom(line, n, i) + [Terminal])
  {
    KindsFromValid(line, n, i);
    var ks := KindsFrom(line, n, i);
    forall j | 0 <= j < |ks + [Terminal]|
      ensures KindValid(line, n, (ks + [Terminal])[j])
    {
      if j < |ks| {
        assert (ks + [Terminal])[j] == ks[j];
      }
    }
  }

  /** Rendering kinds one after another renders each in turn. */
  lemma EntriesAppend(line: seq<string>, n: nat, a: seq<Kind>, b: seq<Kind>)
    requires n >= 2 && AllValid(line, n, a) && AllValid(line, n, b)
    ensures AllValid(line, n, a + b)
    ensures Entries(line, n, a + b) == Entries(line, n, a) + Entries(line, n, b)
  {
    var l, r := Entries(line, n, a + b), Entries(line, n, a) + Entries(line, n, b);
    forall j | 0 <= j < |a + b|
      ensures l[j] == r[j]
    {
      if j < |a| {
        assert (a + b)[j] == a[j];
      } else {
        assert (a + b)[j] == b[j - |a|];
      }
    }
  }

  /** The appends of window `i` come ahead of those of the later windows. */
  lemma WindowsSplit(g: Rules, line: seq<string>, n: nat, i: nat)
    requires n >= 2 && i + n <= |line|
    ensures AppendAll(g, Rest(line, n, i)) == AppendAll(AppendAll(g, WindowEntries(line, n, i)), Rest(line, n, i + 1))
  {
    var here := WindowKinds(line, n, i);
    var rest := KindsFrom(line, n, i + 1) + [Terminal];
    RemainingValid(line, n, i);
    RemainingValid(line, n, i + 1);
    WindowKindsValid(line, n, i);
    assert KindsFrom(line, n, i) + [Terminal] == here + rest;
    EntriesAppend(line, n, here, rest);
    AppendAllConcat(g, Entries(line, n, here), Entries(line, n, rest));
  }

  /** After the last window only the terminal is left. */
  lemma LastAppend(g: Rules, line: seq<string>, n: nat, i: nat)
    requires n >= 2 && i + n > |line|
    ensures AppendAll(g, Rest(line, n, i)) == Append(g, TerminalEntry(line, n).rule, TerminalEntry(line, n).expansion)
  {
    RemainingValid(line, n, i);
    assert KindsFrom(line, n, i) + [Terminal] == [Terminal];
    assert Entries(line, n, [Terminal]) == [TerminalEntry(line, n)];
    AppendAllOne(g, TerminalEntry(line, n));
  }

  /** Window `i`'s appends, one or two. */
  lemma WindowAppends(g: Rules, line: seq<string>, n: nat, i: nat)
    requires n >= 2 && i + n <= |line|
    ensures var c := Expected(line, n, Continuation(i));
            var g1 := if StartsSentence(line, i) then Append(g, Expected(line, n, SentenceStart(i)).rule, Expected(line, n, SentenceStart(i)).expansion) else g;
            AppendAll(g, WindowEntries(line, n, i)) == Append(g1, c.rule, c.expansion)
  {
    WindowKindsValid(line, n, i);
    var c := Expected(line, n, Continuation(i));
    if StartsSentence(line, i) {
      var st := Expected(line, n, SentenceStart(i));
      assert WindowKinds(line, n, i) == [SentenceStart(i), Continuation(i)];
      EntriesTwo(line, n, SentenceStart(i), Continuation(i));
      AppendAllTwo(g, st, c);
    } else {
      assert WindowKinds(line, n, i) == [Continuation(i)];
      EntriesOne(line, n, Continuation(i));
      AppendAllOne(g, c);
    }
  }

  lemma EntriesOne(line: seq<string>, n: nat, k: Kind)
    requires n >= 2 && KindValid(line, n, k)
    ensures AllValid(line, n, [k]) && Entries(line, n, [k]) == [Expected(line, n, k)]
  {
  }

  lemma EntriesTwo(line: seq<string>, n: nat, k1: Kind, k2: Kind)
    requires n >= 2 && KindValid(line, n, k1) && KindValid(line, n, k2)
    ensures AllValid(line, n, [k1, k2]) && Entries(line, n, [k1, k2]) == [Expected(line, n, k1), Expected(line, n, k2)]
  {
    EntriesOne(line, n, k1);
    EntriesOne(line, n, k2);
    assert [k1, k2] == [k1] + [k2];
    EntriesAppend(line, n, [k1], [k2]);
  }

  lemma AppendAllOne(g: Rules, e: Entry)
    ensures AppendAll(g, [e]) == Append(g, e.rule, e.expansion)
  {
    assert [e][1..] == [];
  }

  lemma AppendAllTwo(g: Rules, e: Entry, f: Entry)
    ensures AppendAll(g, [e, f]) == Append(Append(g, e.rule, e.expansion), f.rule, f.expansion)
  {
    assert [e, f][1..] == [f];
    AppendAllOne(Append(g, e.rule, e.expansion), f);
  }

}
