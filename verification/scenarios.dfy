/**
 Worked examples: one line through the extractor and one rule through the
 reducer.
 */
module Scenarios {
  import opened Text
  import opened Punctuation
  import opened Render
  import opened Extract
  import opened Reduce
  import opened Gcd
  import opened Tokenizer

  /** `Hello world. Good morning.` after tokenising. */
  const Line: seq<string> := ["Hello", "world", "PUNC_PER", "Good", "morning", "PUNC_PER"]

  /** With n = 3 the line has four windows; the first and the fourth begin a
      sentence, and the line ends with its terminal. */
  lemma LineKindsExample()
    ensures LineKinds(Line, 3) == [SentenceStart(0), Continuation(0), Continuation(1), Continuation(2), SentenceStart(3), Continuation(3), Terminal]
  {
    ExampleStarts();
    assert KindsFrom(Line, 3, 4) == [];
    assert KindsFrom(Line, 3, 3) == [SentenceStart(3), Continuation(3)];
    assert KindsFrom(Line, 3, 2) == [Continuation(2), SentenceStart(3), Continuation(3)];
    assert KindsFrom(Line, 3, 1) == [Continuation(1), Continuation(2), SentenceStart(3), Continuation(3)];
  }

  /** Windows 0 and 3 begin a sentence: the first because it opens the
      line, the fourth because it follows a period and is no code itself. */
  lemma ExampleStarts()
    ensures StartsSentence(Line, 0) && !StartsSentence(Line, 1) && !StartsSentence(Line, 2)
    ensures StartsSentence(Line, 3)
  {
  }

  /** `start_boundary` gains the contexts of windows 0 and 3. */
  lemma LineStartsExample()
    ensures StartWindows(LineKinds(Line, 3)) == [0, 3]
  {
    LineKindsExample();
    var a, b := [SentenceStart(0)], [Continuation(0), Continuation(1), Continuation(2)];
    var c, d := [SentenceStart(3)], [Continuation(3), Terminal];
    assert LineKinds(Line, 3) == a + b + c + d;
    StartsAppend(a + b + c, d);
    StartsAppend(a + b, c);
    StartsAppend(a, b);
    NoStarts(b);
    NoStarts(d);
    ProjectionsSingle(a[0]);
    ProjectionsSingle(c[0]);
  }

  lemma {:induction false} NoStarts(ks: seq<Kind>)
    ensures (forall j :: 0 <= j < |ks| ==> !ks[j].SentenceStart?) ==> StartWindows(ks) == []
    decreases |ks|
  {
    if |ks| > 0 {
      NoStarts(ks[1..]);
    }
  }

  /** Text shorter than a code passes through the decoder unchanged. */
  lemma {:induction false} ShortDecoded(s: string)
    ensures |s| < CodeWidth ==> Decode(s) == s
    decreases |s|
  {
    DecodeIsScan(s);
    if 0 < |s| < CodeWidth {
      ShortDecoded(s[1..]);
      DecodeIsScan(s[1..]);
    }
  }

  /** A code alone decodes to its mark. */
  lemma CodeDecoded(code: string)
    requires code in Marks
    ensures Decode(code) == Marks[code]
  {
    TableShape();
    DecodeIsScan(code);
    assert code[..CodeWidth] == code;
    assert code[CodeWidth..] == "";
  }

  /** A lowercase word followed by a code decodes to the word and the mark. */
  lemma WordThenCode(w: string, code: string)
    requires forall i :: 0 <= i < |w| ==> 'a' <= w[i] <= 'z'
    requires code in Marks
    ensures Decode(w + code) == w + Marks[code]
  {
    forall key | key in Marks
      ensures SharesNoChar(w, key)
    {
      CodesHaveNoLowercase();
    }
    DecodeIsScan(w + code);
    DecodeIsScan(code);
    ScanSkip(w, code, Marks, CodeWidth);
    CodeDecoded(code);
  }

  /** Two tokens, neither `origin`, as a key and as a reference. */
  lemma PairKey(a: string, b: string)
    requires a != OriginWord && b != OriginWord
    ensures Literal([a, b], false) == a + Separator(b) + b
    ensures Symbol([a, b]) == "#" + a + Separator(b) + b + "#"
  {
    KeyIsSpacedJoin([a, b]);
    SymbolNamesKey([a, b]);
    assert SubstituteWordOrigin([a, b]) == [a, b];
    assert [a, b][1..] == [b];
  }

  /** Two tokens as terminal text. */
  lemma PairTerminal(ts: seq<string>)
    requires |ts| == 2
    ensures Literal(ts, true) == Decode(ts[0] + Separator(ts[1]) + ts[1])
  {
    TerminalIsDecodedJoin(ts);
    DecodeIsScan(ts[0] + Separator(ts[1]) + ts[1]);
    assert ts[1..] == [ts[1]];
  }

  /** A three-token window, the last two not `origin`, as a continuation. */
  lemma TripleNgram(a: string, b: string, c: string)
    requires b != OriginWord && c != OriginWord
    ensures Ngram([a, b, c]) == Decode(a) + Separator(b) + "#" + b + Separator(c) + c + "#"
  {
    var w := [a, b, c];
    NgramShape(w);
    assert w[0] == a && w[1] == b && w[1..] == [b, c];
    assert Spaces(w)[0] == Separator(b);
    PairKey(b, c);
    var d, k := Decode(a) + Separator(b) + "#", b + Separator(c) + c;
    assert Ngram(w) == d + k + "#";
    AppendThree(d, b, Separator(c), c);
  }

  lemma AppendThree(x: string, p: string, q: string, r: string)
    ensures x + (p + q + r) == x + p + q + r
  {
  }

  lemma ExampleGaps()
    ensures Separator("world") == " " && Separator("Good") == " " && Separator("morning") == " "
    ensures Separator("PUNC_PER") == ""
  {
    assert Head("PUNC_PER") == "PUNC_PER";
  }

  /** A two-token run whose spaced join is `key`. */
  lemma PairIs(ctx: seq<string>, key: string)
    requires |ctx| == 2 && ctx[0] != OriginWord && ctx[1] != OriginWord
    requires ctx[0] + Separator(ctx[1]) + ctx[1] == key
    ensures Literal(ctx, false) == key && Symbol(ctx) == "#" + key + "#"
  {
    assert ctx == [ctx[0], ctx[1]];
    PairKey(ctx[0], ctx[1]);
  }

  /** A three-token window whose continuation is `out`. */
  lemma TripleIs(w: seq<string>, text: string, out: string)
    requires |w| == 3 && w[1] != OriginWord && w[2] != OriginWord && Decode(w[0]) == text
    requires text + Separator(w[1]) + "#" + w[1] + Separator(w[2]) + w[2] + "#" == out
    ensures Ngram(w) == out
  {
    assert w == [w[0], w[1], w[2]];
    TripleNgram(w[0], w[1], w[2]);
  }

  /** The entry a sentence start files, given the reference it renders. */
  lemma StartIs(line: seq<string>, n: nat, i: nat, ref: string)
    requires n >= 2 && i + n <= |line| && StartsSentence(line, i) && Symbol(Context(line, n, i)) == ref
    ensures Expected(line, n, SentenceStart(i)) == Entry(SentenceStart(i), StartBoundary, ref)
  {
  }

  /** The entry a continuation files, given its key and expansion. */
  lemma ContinuationIs(line: seq<string>, n: nat, i: nat, key: string, out: string)
    requires n >= 2 && i + n <= |line|
    requires Literal(Context(line, n, i), false) == key && Ngram(Window(line, n, i)) == out
    ensures Expected(line, n, Continuation(i)) == Entry(Continuation(i), key, out)
  {
  }

  lemma Key0(ctx: seq<string>)
    requires |ctx| == 2 && ctx[0] == "Hello" && ctx[1] == "world"
    ensures Literal(ctx, false) == "Hello world" && Symbol(ctx) == "#" + "Hello world" + "#"
  {
    assert Separator(ctx[1]) == " " by {
      ExampleGaps();
    }
    assert ctx[0] + Separator(ctx[1]) + ctx[1] == "Hello world";
    PairIs(ctx, "Hello world");
  }

  lemma Continuation0(w: seq<string>)
    requires |w| == 3 && w[0] == "Hello" && w[1] == "world" && w[2] == "PUNC_PER"
    ensures Ngram(w) == "Hello #worldPUNC_PER#"
  {
    assert Separator(w[1]) == " " && Separator(w[2]) == "" by {
      ExampleGaps();
    }
    assert Decode(w[0]) == "Hello" by {
      ShortDecoded(w[0]);
    }
    HelloWorldText(w[1], w[2]);
    TripleIs(w, "Hello", "Hello #worldPUNC_PER#");
  }

  lemma HelloWorldText(b: string, c: string)
    requires b == "world" && c == "PUNC_PER"
    ensures "Hello" + " " + "#" + b + "" + c + "#" == "Hello #worldPUNC_PER#"
  {
  }

  lemma Key1(ctx: seq<string>)
    requires |ctx| == 2 && ctx[0] == "world" && ctx[1] == "PUNC_PER"
    ensures Literal(ctx, false) == "worldPUNC_PER"
  {
    assert Separator(ctx[1]) == "" by {
      ExampleGaps();
    }
    assert ctx[0] + Separator(ctx[1]) + ctx[1] == "worldPUNC_PER";
    PairIs(ctx, "worldPUNC_PER");
  }

  lemma Continuation1(w: seq<string>)
    requires |w| == 3 && w[0] == "world" && w[1] == "PUNC_PER" && w[2] == "Good"
    ensures Ngram(w) == "world#PUNC_PER Good#"
  {
    assert Separator(w[1]) == "" && Separator(w[2]) == " " by {
      ExampleGaps();
    }
    assert Decode(w[0]) == "world" by {
      ShortDecoded(w[0]);
    }
    WorldGoodText(w[1], w[2]);
    TripleIs(w, "world", "world#PUNC_PER Good#");
  }

  lemma WorldGoodText(b: string, c: string)
    requires b == "PUNC_PER" && c == "Good"
    ensures "world" + "" + "#" + b + " " + c + "#" == "world#PUNC_PER Good#"
  {
  }

  lemma Key2(ctx: seq<string>)
    requires |ctx| == 2 && ctx[0] == "PUNC_PER" && ctx[1] == "Good"
    ensures Literal(ctx, false) == "PUNC_PER Good"
  {
    assert Separator(ctx[1]) == " " by {
      ExampleGaps();
    }
    assert ctx[0] + Separator(ctx[1]) + ctx[1] == "PUNC_PER Good";
    PairIs(ctx, "PUNC_PER Good");
  }

  lemma Continuation2(w: seq<string>)
    requires |w| == 3 && w[0] == "PUNC_PER" && w[1] == "Good" && w[2] == "morning"
    ensures Ngram(w) == ". #Good morning#"
  {
    assert Separator(w[1]) == " " && Separator(w[2]) == " " by {
      ExampleGaps();
    }
    assert Decode(w[0]) == "." by {
      CodeDecoded(w[0]);
    }
    GoodMorningText(w[1], w[2]);
    TripleIs(w, ".", ". #Good morning#");
  }

  lemma GoodMorningText(b: string, c: string)
    requires b == "Good" && c == "morning"
    ensures "." + " " + "#" + b + " " + c + "#" == ". #Good morning#"
  {
  }

  lemma Key3(ctx: seq<string>)
    requires |ctx| == 2 && ctx[0] == "Good" && ctx[1] == "morning"
    ensures Literal(ctx, false) == "Good morning" && Symbol(ctx) == "#" + "Good morning" + "#"
  {
    assert Separator(ctx[1]) == " " by {
      ExampleGaps();
    }
    assert ctx[0] + Separator(ctx[1]) + ctx[1] == "Good morning";
    PairIs(ctx, "Good morning");
  }

  lemma Continuation3(w: seq<string>)
    requires |w| == 3 && w[0] == "Good" && w[1] == "morning" && w[2] == "PUNC_PER"
    ensures Ngram(w) == "Good #morningPUNC_PER#"
  {
    assert Separator(w[1]) == " " && Separator(w[2]) == "" by {
      ExampleGaps();
    }
    assert Decode(w[0]) == "Good" by {
      ShortDecoded(w[0]);
    }
    GoodMorningPeriodText(w[1], w[2]);
    TripleIs(w, "Good", "Good #morningPUNC_PER#");
  }

  lemma GoodMorningPeriodText(b: string, c: string)
    requires b == "morning" && c == "PUNC_PER"
    ensures "Good" + " " + "#" + b + "" + c + "#" == "Good #morningPUNC_PER#"
  {
  }

  lemma KeyEnd(ctx: seq<string>)
    requires |ctx| == 2 && ctx[0] == "morning" && ctx[1] == "PUNC_PER"
    ensures Literal(ctx, false) == "morningPUNC_PER"
  {
    assert Separator(ctx[1]) == "" by {
      ExampleGaps();
    }
    assert ctx[0] + Separator(ctx[1]) + ctx[1] == "morningPUNC_PER";
    PairIs(ctx, "morningPUNC_PER");
  }

  lemma MorningIsLower(a: string)
    requires a == "morning"
    ensures forall i :: 0 <= i < |a| ==> 'a' <= a[i] <= 'z'
  {
  }

  lemma TerminalEnd(tail: seq<string>)
    requires |tail| == 2 && tail[0] == "morning" && tail[1] == "PUNC_PER"
    ensures Literal(tail, true) == "morning."
  {
    assert tail[0] + Separator(tail[1]) + tail[1] == tail[0] + tail[1] by {
      ExampleGaps();
    }
    PairTerminal(tail);
    assert Decode(tail[0] + tail[1]) == tail[0] + Marks[tail[1]] by {
      MorningIsLower(tail[0]);
      WordThenCode(tail[0], tail[1]);
    }
  }

  /** `start_boundary` gains `#Hello world#` for window 0. */
  lemma Start0()
    ensures Expected(Line, 3, SentenceStart(0)) == Entry(SentenceStart(0), StartBoundary, "#Hello world#")
  {
    ExampleStarts();
    var ctx := Context(Line, 3, 0);
    assert |ctx| == 2 && ctx[0] == "Hello" && ctx[1] == "world";
    Key0(ctx);
    StartIs(Line, 3, 0, "#Hello world#");
  }

  /** `start_boundary` gains `#Good morning#` for window 3. */
  lemma Start3()
    ensures Expected(Line, 3, SentenceStart(3)) == Entry(SentenceStart(3), StartBoundary, "#Good morning#")
  {
    ExampleStarts();
    var ctx := Context(Line, 3, 3);
    assert |ctx| == 2 && ctx[0] == "Good" && ctx[1] == "morning";
    Key3(ctx);
    StartIs(Line, 3, 3, "#Good morning#");
  }

  /** Rule `Hello world` gains `Hello #worldPUNC_PER#`. */
  lemma Window0()
    ensures Expected(Line, 3, Continuation(0)) == Entry(Continuation(0), "Hello world", "Hello #worldPUNC_PER#")
  {
    var ctx, w := Context(Line, 3, 0), Window(Line, 3, 0);
    assert Literal(ctx, false) == "Hello world" by {
      assert |ctx| == 2 && ctx[0] == "Hello" && ctx[1] == "world";
      Key0(ctx);
    }
    assert Ngram(w) == "Hello #worldPUNC_PER#" by {
      assert |w| == 3 && w[0] == "Hello" && w[1] == "world" && w[2] == "PUNC_PER";
      Continuation0(w);
    }
    ContinuationIs(Line, 3, 0, "Hello world", "Hello #worldPUNC_PER#");
  }

  /** Rule `worldPUNC_PER` gains `world#PUNC_PER Good#`. */
  lemma Window1()
    ensures Expected(Line, 3, Continuation(1)) == Entry(Continuation(1), "worldPUNC_PER", "world#PUNC_PER Good#")
  {
    var ctx, w := Context(Line, 3, 1), Window(Line, 3, 1);
    assert Literal(ctx, false) == "worldPUNC_PER" by {
      assert |ctx| == 2 && ctx[0] == "world" && ctx[1] == "PUNC_PER";
      Key1(ctx);
    }
    assert Ngram(w) == "world#PUNC_PER Good#" by {
      assert |w| == 3 && w[0] == "world" && w[1] == "PUNC_PER" && w[2] == "Good";
      Continuation1(w);
    }
    ContinuationIs(Line, 3, 1, "worldPUNC_PER", "world#PUNC_PER Good#");
  }

  /** Rule `PUNC_PER Good` gains `. #Good morning#`. */
  lemma Window2()
    ensures Expected(Line, 3, Continuation(2)) == Entry(Continuation(2), "PUNC_PER Good", ". #Good morning#")
  {
    var ctx, w := Context(Line, 3, 2), Window(Line, 3, 2);
    assert Literal(ctx, false) == "PUNC_PER Good" by {
      assert |ctx| == 2 && ctx[0] == "PUNC_PER" && ctx[1] == "Good";
      Key2(ctx);
    }
    assert Ngram(w) == ". #Good morning#" by {
      assert w[2] == Line[4];
      assert |w| == 3 && w[0] == "PUNC_PER" && w[1] == "Good" && w[2] == "morning";
      Continuation2(w);
    }
    ContinuationIs(Line, 3, 2, "PUNC_PER Good", ". #Good morning#");
  }

  /** Rule `Good morning` gains `Good #morningPUNC_PER#`. */
  lemma Window3()
    ensures Expected(Line, 3, Continuation(3)) == Entry(Continuation(3), "Good morning", "Good #morningPUNC_PER#")
  {
    var ctx, w := Context(Line, 3, 3), Window(Line, 3, 3);
    assert Literal(ctx, false) == "Good morning" by {
      assert |ctx| == 2 && ctx[0] == "Good" && ctx[1] == "morning";
      Key3(ctx);
    }
    assert Ngram(w) == "Good #morningPUNC_PER#" by {
      assert |w| == 3 && w[0] == "Good" && w[1] == "morning" && w[2] == "PUNC_PER";
      Continuation3(w);
    }
    ContinuationIs(Line, 3, 3, "Good morning", "Good #morningPUNC_PER#");
  }

  /** The line closes with the terminal `morning.` under `morningPUNC_PER`. */
  lemma LineEnd()
    ensures TerminalEntry(Line, 3) == Entry(Terminal, "morningPUNC_PER", "morning.")
  {
    var tail := Tail(Line, 3);
    assert |tail| == 2 && tail[0] == "morning" && tail[1] == "PUNC_PER";
    KeyEnd(tail);
    TerminalEnd(tail);
  }

  /** The `j`-th append of a line, given the entry its kind makes. */
  lemma EntryIs(line: seq<string>, n: nat, j: nat, k: Kind, e: Entry)
    requires n >= 2 && j < |LineKinds(line, n)| && LineKinds(line, n)[j] == k
    requires KindValid(line, n, k) && Expected(line, n, k) == e
    ensures j < |LineEntries(line, n)| && LineEntries(line, n)[j] == e
  {
    LineEntriesFaithful(line, n);
  }

  lemma Entry0()
    ensures |LineEntries(Line, 3)| == 7 && LineEntries(Line, 3)[0] == Entry(SentenceStart(0), StartBoundary, "#Hello world#")
  {
    LineKindsExample();
    ExampleStarts();
    Start0();
    EntryIs(Line, 3, 0, SentenceStart(0), Entry(SentenceStart(0), StartBoundary, "#Hello world#"));
    LineEntriesFaithful(Line, 3);
  }

  lemma Entry1()
    ensures |LineEntries(Line, 3)| == 7 && LineEntries(Line, 3)[1] == Entry(Continuation(0), "Hello world", "Hello #worldPUNC_PER#")
  {
    LineKindsExample();
    Window0();
    EntryIs(Line, 3, 1, Continuation(0), Entry(Continuation(0), "Hello world", "Hello #worldPUNC_PER#"));
    LineEntriesFaithful(Line, 3);
  }

  lemma Entry2()
    ensures |LineEntries(Line, 3)| == 7 && LineEntries(Line, 3)[2] == Entry(Continuation(1), "worldPUNC_PER", "world#PUNC_PER Good#")
  {
    LineKindsExample();
    Window1();
    EntryIs(Line, 3, 2, Continuation(1), Entry(Continuation(1), "worldPUNC_PER", "world#PUNC_PER Good#"));
    LineEntriesFaithful(Line, 3);
  }

  lemma Entry3()
    ensures |LineEntries(Line, 3)| == 7 && LineEntries(Line, 3)[3] == Entry(Continuation(2), "PUNC_PER Good", ". #Good morning#")
  {
    LineKindsExample();
    Window2();
    EntryIs(Line, 3, 3, Continuation(2), Entry(Continuation(2), "PUNC_PER Good", ". #Good morning#"));
    LineEntriesFaithful(Line, 3);
  }

  lemma Entry4()
    ensures |LineEntries(Line, 3)| == 7 && LineEntries(Line, 3)[4] == Entry(SentenceStart(3), StartBoundary, "#Good morning#")
  {
    LineKindsExample();
    ExampleStarts();
    Start3();
    EntryIs(Line, 3, 4, SentenceStart(3), Entry(SentenceStart(3), StartBoundary, "#Good morning#"));
    LineEntriesFaithful(Line, 3);
  }

  lemma Entry5()
    ensures |LineEntries(Line, 3)| == 7 && LineEntries(Line, 3)[5] == Entry(Continuation(3), "Good morning", "Good #morningPUNC_PER#")
  {
    LineKindsExample();
    Window3();
    EntryIs(Line, 3, 5, Continuation(3), Entry(Continuation(3), "Good morning", "Good #morningPUNC_PER#"));
    LineEntriesFaithful(Line, 3);
  }

  lemma Entry6()
    ensures |LineEntries(Line, 3)| == 7 && LineEntries(Line, 3)[6] == Entry(Terminal, "morningPUNC_PER", "morning.")
  {
    LineKindsExample();
    LineEnd();
    EntryIs(Line, 3, 6, Terminal, Entry(Terminal, "morningPUNC_PER", "morning."));
    LineEntriesFaithful(Line, 3);
  }

  /** All appends of `Hello world. Good morning.` with n = 3, in order. */
  lemma LineEntriesExample()
    ensures LineEntries(Line, 3) == [
      Entry(SentenceStart(0), StartBoundary, "#Hello world#"),
      Entry(Continuation(0), "Hello world", "Hello #worldPUNC_PER#"),
      Entry(Continuation(1), "worldPUNC_PER", "world#PUNC_PER Good#"),
      Entry(Continuation(2), "PUNC_PER Good", ". #Good morning#"),
      Entry(SentenceStart(3), StartBoundary, "#Good morning#"),
      Entry(Continuation(3), "Good morning", "Good #morningPUNC_PER#"),
      Entry(Terminal, "morningPUNC_PER", "morning.")
    ]
  {
    Entry0();
    Entry1();
    Entry2();
    Entry3();
    Entry4();
    Entry5();
    Entry6();
    SevenEntries(LineEntries(Line, 3));
  }

  lemma SevenEntries(es: seq<Entry>)
    requires |es| == 7
    ensures es == [es[0], es[1], es[2], es[3], es[4], es[5], es[6]]
  {
  }

  /** Three distinct options with counts 4, 4 and 2. */
  function Weighted(x: string, y: string, z: string): seq<string> {
    [x, x, x, x, y, y, y, y, z, z]
  }

  lemma WeightedDistinct(x: string, y: string, z: string)
    requires x != y && y != z && x != z
    ensures Distinct(Weighted(x, y, z)) == [x, y, z]
  {
    var o := Weighted(x, y, z);
    var t := [y, y, y, y, z, z];
    assert RemoveAll(o[1..], x) == t by {
      RemoveAllAppend([x, x, x], t, x);
      RemoveAllRepeat(x, 3);
      RemoveAllAbsent(t, x);
      assert Repeat(x, 3) == [x, x, x];
      assert o[1..] == [x, x, x] + t;
    }
    var u := [z, z];
    assert RemoveAll(t[1..], y) == u by {
      RemoveAllAppend([y, y, y], u, y);
      RemoveAllRepeat(y, 3);
      RemoveAllAbsent(u, y);
      assert Repeat(y, 3) == [y, y, y];
      assert t[1..] == [y, y, y] + u;
    }
    assert RemoveAll(u[1..], z) == [];
    assert Distinct(u) == [z];
  }

  lemma WeightedCounts(x: string, y: string, z: string)
    requires x != y && y != z && x != z
    ensures Counts([x, y, z], Weighted(x, y, z)) == [4, 4, 2]
  {
    var m := multiset(Weighted(x, y, z));
    assert m == multiset{x, x, x, x, y, y, y, y, z, z};
  }

  lemma WeightedFactor(x: string, y: string, z: string)
    requires x != y && y != z && x != z
    ensures Factor(Weighted(x, y, z)) == 2
  {
    WeightedDistinct(x, y, z);
    WeightedCounts(x, y, z);
    assert GcdSeq([4, 4, 2]) == 2;
  }

  /** Keys whose counts halve to 2, 2 and 1 expand to two, two and one
      copies. */
  lemma HalvedExpand(x: string, y: string, z: string, o: seq<string>)
    requires multiset(o)[x] / 2 == 2 && multiset(o)[y] / 2 == 2 && multiset(o)[z] / 2 == 1
    ensures Expand([x, y, z], o, 2) == [x, x, y, y, z]
  {
    var keys := [x, y, z];
    assert Expand(keys[2..], o, 2) == [z] by {
      assert keys[2..][1..] == [];
      assert Repeat(z, 1) == [z];
    }
    assert Expand(keys[1..], o, 2) == [y, y, z] by {
      assert keys[1..][1..] == keys[2..];
      assert Repeat(y, 2) == [y, y];
    }
    assert Repeat(x, 2) == [x, x];
  }

  /** A rule with counts {x: 4, y: 4, z: 2} reduces to {x: 2, y: 2, z: 1},
      in first-occurrence order. */
  lemma ReduceExample(x: string, y: string, z: string)
    requires x != y && y != z && x != z
    ensures ReduceOptions(Weighted(x, y, z)) == [x, x, y, y, z]
  {
    var o := Weighted(x, y, z);
    WeightedDistinct(x, y, z);
    WeightedFactor(x, y, z);
    assert multiset(o)[x] / 2 == 2 && multiset(o)[y] / 2 == 2 && multiset(o)[z] / 2 == 1 by {
      WeightedCounts(x, y, z);
      assert Counts([x, y, z], o)[0] == 4 && Counts([x, y, z], o)[1] == 4 && Counts([x, y, z], o)[2] == 2;
    }
    HalvedExpand(x, y, z, o);
  }

  //
  // Tokenising
  //
  // Each step below says what one piece at the front of a line becomes
  // among the tokens; the examples chain the steps along a line.

  /** Printable, not a space and not part of a punctuation mark. */
  predicate Plain(w: string) {
    forall i :: 0 <= i < |w| ==> '!' <= w[i] <= '~' && w[i] !in MarkChars
  }

  /** What may follow a word without joining it: the end of the line, a
      space, a lone period or an ellipsis. */
  predicate Breaks(t: string) {
    || |t| == 0
    || t[0] == ' '
    || (t[0] == '.' && (|t| == 1 || t[1] != '.'))
    || (|t| >= 3 && t[0] == '.' && t[1] == '.' && t[2] == '.')
  }

  /** Printable ASCII characters other than the space are not whitespace. */
  lemma PrintableNoSpace(w: string)
    requires forall i :: 0 <= i < |w| ==> '!' <= w[i] <= '~'
    ensures NoSpace(w)
  {
  }

  /** Letters, and the characters between `Z` and `a`, are plain. */
  lemma LettersPlain(w: string)
    requires forall i :: 0 <= i < |w| ==> 'A' <= w[i] <= 'z'
    ensures Plain(w)
  {
    assert forall c :: c in MarkChars ==> c < 'A';
  }

  lemma CodeNoSpace(c: string)
    requires c == "PUNC_PER" || c == "0PUNC_EL"
    ensures |c| > 0 && NoSpace(c)
  {
    PrintableNoSpace(c);
  }

  lemma SpaceNotMark(c: char)
    requires c == ' '
    ensures c !in MarkChars && IsSpace(c)
  {
  }

  /** A line with no whitespace at either end is its own `strip()`. */
  lemma StripKeeps(s: string)
    requires |s| > 0 && !IsSpace(s[0]) && !IsSpace(s[|s| - 1])
    ensures Strip(s) == s
  {
    assert TrimStart(s) == s;
  }

  /** A line without capitals is its own `lower()`. */
  lemma LowerKeeps(s: string)
    requires forall i :: 0 <= i < |s| ==> !('A' <= s[i] <= 'Z')
    ensures Lower(s) == s
  {
  }

  /** The tokens of a line are the whitespace-separated words of its
      encoding. */
  lemma TokenizeIsSplit(line: string, lowercase: bool)
    ensures Tokenize(line, lowercase) == Split(EncodeScan(Prepare(line, lowercase)))
  {
    var e := EncodeScan(Prepare(line, lowercase));
    SplitOfLayout(SplitGaps(e), Tokenize(line, lowercase));
  }

  lemma TokensOf(line: string, lowercase: bool, ws: seq<string>)
    requires Prepare(line, lowercase) == line && Split(EncodeScan(line)) == ws
    ensures Tokenize(line, lowercase) == ws
  {
    TokenizeIsSplit(line, lowercase);
  }

  lemma SplitWord(w: string, t: string)
    requires |w| > 0 && NoSpace(w) && (|t| > 0 ==> IsSpace(t[0]))
    ensures Split(w + t) == [w] + Split(t)
  {
    WordOf(w, t);
    assert (w + t)[0] == w[0] && (w + t)[|w|..] == t;
  }

  lemma EncodedBreak(t: string)
    requires Breaks(t)
    ensures |EncodeScan(t)| > 0 ==> IsSpace(EncodeScan(t)[0])
  {
    if |t| > 0 {
      assert IsSpace(' ');
      if t[0] == ' ' {
        SpaceNotMark(t[0]);
        EncodeScanPlain(t);
      } else if |t| >= 3 && t[1] == '.' && t[2] == '.' {
        EncodeEllipsis(t);
      } else {
        EncodePeriod(t);
      }
    }
  }

  /** A plain word at the front of a line is one token. */
  lemma TokWord(s: string, n: nat)
    requires 0 < n <= |s| && Plain(s[..n]) && Breaks(s[n..])
    ensures Split(EncodeScan(s)) == [s[..n]] + Split(EncodeScan(s[n..]))
  {
    var w, t := s[..n], s[n..];
    assert s == w + t;
    PrintableNoSpace(w);
    EncodeSkips(w, t);
    EncodedBreak(t);
    SplitWord(w, EncodeScan(t));
  }

  /** A space at the front of a line makes no token. */
  lemma TokSpace(s: string)
    requires |s| > 0 && s[0] == ' '
    ensures Split(EncodeScan(s)) == Split(EncodeScan(s[1..]))
  {
    SpaceNotMark(s[0]);
    EncodeScanPlain(s);
    SplitSkipsSpace([s[0]], EncodeScan(s[1..]));
  }

  /** A period at the front of a line that does not begin an ellipsis is the
      token `PUNC_PER`. */
  lemma TokPeriod(s: string)
    requires |s| > 0 && s[0] == '.' && Breaks(s[1..]) && (|s| == 1 || s[1] != '.')
    ensures Split(EncodeScan(s)) == ["PUNC_PER"] + Split(EncodeScan(s[1..]))
  {
    var c, t := "PUNC_PER", EncodeScan(s[1..]);
    EncodePeriod(s);
    SplitSkipsSpace([' '], c + t) by {
      assert IsSpace(' ');
    }
    assert " " + (c + t) == [' '] + (c + t);
    EncodedBreak(s[1..]);
    CodeNoSpace(c);
    SplitWord(c, t);
  }

  /** Three periods at the front of a line are the one token `0PUNC_EL`. */
  lemma TokEllipsis(s: string)
    requires |s| >= 3 && s[0] == '.' && s[1] == '.' && s[2] == '.' && Breaks(s[3..])
    ensures Split(EncodeScan(s)) == ["0PUNC_EL"] + Split(EncodeScan(s[3..]))
  {
    var c, t := "0PUNC_EL", EncodeScan(s[3..]);
    EncodeEllipsis(s);
    SplitSkipsSpace([' '], c + t) by {
      assert IsSpace(' ');
    }
    assert " " + (c + t) == [' '] + (c + t);
    EncodedBreak(s[3..]);
    CodeNoSpace(c);
    SplitWord(c, t);
  }

  /** A plain line is one token. */
  lemma WordTokens(line: string)
    requires |line| > 0 && Plain(line)
    ensures Tokenize(line, false) == [line]
  {
    PrintableNoSpace(line);
    StripKeeps(line);
    TokWord(line, |line|);
    assert line[|line|..] == "";
    TokensOf(line, false, [line]);
  }

  /** A plain word ending in a period is the word and `PUNC_PER`. */
  lemma WordPeriodTokens(line: string)
    requires |line| >= 2 && Plain(line[..|line| - 1]) && line[|line| - 1] == '.'
    ensures Tokenize(line, false) == [line[..|line| - 1], "PUNC_PER"]
  {
    var n := |line| - 1;
    PrintableNoSpace(line[..n]);
    StripKeeps(line);
    TokWord(line, n);
    TokPeriod(line[n..]);
    assert line[n..][1..] == "";
    TokensOf(line, false, [line[..n], "PUNC_PER"]);
  }

  /** A plain word without capitals ending in an ellipsis is the word and
      `0PUNC_EL`, lowercased or not. */
  lemma WordEllipsisTokens(line: string, lowercase: bool)
    requires |line| >= 4 && Plain(line[..|line| - 3])
    requires forall i :: 0 <= i < |line| - 3 ==> !('A' <= line[i] <= 'Z')
    requires line[|line| - 3] == '.' && line[|line| - 2] == '.' && line[|line| - 1] == '.'
    ensures Tokenize(line, lowercase) == [line[..|line| - 3], "0PUNC_EL"]
  {
    var n := |line| - 3;
    PrintableNoSpace(line[..n]);
    StripKeeps(line);
    LowerKeeps(line);
    TokWord(line, n);
    TokEllipsis(line[n..]);
    assert line[n..][3..] == "";
    TokensOf(line, lowercase, [line[..n], "0PUNC_EL"]);
  }

  /** The worked line, as the first step of the pipeline makes its tokens:
      `Hello world. Good morning.` without lowercasing is `Line`. */
  lemma TokenizeExample()
    ensures Tokenize("Hello world. Good morning.", false) == Line
  {
    var s := "Hello world. Good morning.";
    assert s == "Hello" + (" " + ("world" + ("." + (" " + ("Good" + (" " + ("morning" + "."))))))) by {
      ExampleSplit();
    }
    ExampleWords();
    TwoSentences(s, "Hello", "world", "Good", "morning");
  }

  lemma ExampleSplit()
    ensures "Hello world. Good morning." == "Hello" + (" " + ("world" + ("." + (" " + ("Good" + (" " + ("morning" + ".")))))))
  {
  }

  /** Two sentences of two plain words each, the second after a space, are
      six tokens. */
  lemma TwoSentences(s: string, a: string, b: string, c: string, d: string)
    requires |a| > 0 && |b| > 0 && |c| > 0 && |d| > 0
    requires Plain(a) && Plain(b) && Plain(c) && Plain(d)
    requires s == a + (" " + (b + ("." + (" " + (c + (" " + (d + ".")))))))
    ensures Tokenize(s, false) == [a, b, "PUNC_PER", c, d, "PUNC_PER"]
  {
    var t := " " + (c + (" " + (d + ("." + ""))));
    assert s == a + (" " + (b + ("." + t)));
    assert Split(EncodeScan(s)) == [a, b, "PUNC_PER"] + Split(EncodeScan(t)) by {
      SentenceBreaks(t);
      Sentence(a, b, t);
    }
    assert Split(EncodeScan(t)) == [c, d, "PUNC_PER"] by {
      SpaceSentence(c, d);
    }
    assert Prepare(s, false) == s by {
      EdgesNotSpace(s, a);
    }
    Six(a, b, c, d, Split(EncodeScan(s)), Split(EncodeScan(t)));
    TokensOf(s, false, [a, b, "PUNC_PER", c, d, "PUNC_PER"]);
  }

  lemma Six(a: string, b: string, c: string, d: string, x: seq<string>, y: seq<string>)
    requires x == [a, b, "PUNC_PER"] + y && y == [c, d, "PUNC_PER"]
    ensures x == [a, b, "PUNC_PER", c, d, "PUNC_PER"]
  {
  }

  /** A line that starts with a plain word and ends with a period is its own
      `strip()`. */
  lemma EdgesNotSpace(s: string, a: string)
    requires |a| > 0 && Plain(a) && |s| > |a| && s[..|a|] == a && s[|s| - 1] == '.'
    ensures Prepare(s, false) == s
  {
    assert s[0] == a[0];
    StripKeeps(s);
  }

  /** A space, then a sentence, and nothing after it. */
  lemma SpaceSentence(c: string, d: string)
    requires |c| > 0 && |d| > 0 && Plain(c) && Plain(d)
    ensures Split(EncodeScan(" " + (c + (" " + (d + ("." + "")))))) == [c, d, "PUNC_PER"]
  {
    var u := c + (" " + (d + ("." + "")));
    TokSpace(" " + u);
    assert (" " + u)[1..] == u;
    Sentence(c, d, "");
    assert EncodeScan("") == "";
    assert Split("") == [];
  }

  lemma SentenceBreaks(t: string)
    requires |t| > 0 && t[0] == ' '
    ensures Breaks(t) && t[0] != '.'
  {
  }

  /** Two plain words and a period: a sentence of three tokens. */
  lemma Sentence(a: string, b: string, t: string)
    requires |a| > 0 && |b| > 0 && Plain(a) && Plain(b) && Breaks(t) && (|t| == 0 || t[0] != '.')
    ensures Split(EncodeScan(a + (" " + (b + ("." + t))))) == [a, b, "PUNC_PER"] + Split(EncodeScan(t))
  {
    var w := "." + t;
    var v := b + w;
    var u := " " + v;
    WordBefore(a, u);
    TokSpace(u);
    assert u[1..] == v;
    WordBefore(b, w);
    PeriodBefore(t);
    Three(a, b, Split(EncodeScan(a + u)), Split(EncodeScan(v)), Split(EncodeScan(w)), Split(EncodeScan(t)));
  }

  lemma Three(a: string, b: string, x: seq<string>, y: seq<string>, z: seq<string>, r: seq<string>)
    requires x == [a] + y && y == [b] + z && z == ["PUNC_PER"] + r
    ensures x == [a, b, "PUNC_PER"] + r
  {
  }

  /** A plain word followed by a break is one token. */
  lemma WordBefore(a: string, u: string)
    requires |a| > 0 && Plain(a) && Breaks(u)
    ensures Split(EncodeScan(a + u)) == [a] + Split(EncodeScan(u))
  {
    var s := a + u;
    assert s[..|a|] == a && s[|a|..] == u;
    TokWord(s, |a|);
  }

  /** A period followed by a break other than a period is `PUNC_PER`. */
  lemma PeriodBefore(t: string)
    requires Breaks(t) && (|t| == 0 || t[0] != '.')
    ensures Split(EncodeScan("." + t)) == ["PUNC_PER"] + Split(EncodeScan(t))
  {
    var s := "." + t;
    assert s[0] == '.' && s[1..] == t;
    TokPeriod(s);
  }

  lemma ExampleWords()
    ensures Plain("Hello") && Plain("world") && Plain("Good") && Plain("morning")
  {
    LettersPlain("Hello");
    LettersPlain("world");
    LettersPlain("Good");
    LettersPlain("morning");
  }

  /** Rule keys can mix context lengths: with `n = 3`, the terminal of a line
      that is the one word `a + c`, where `c` begins with a code, is filed
      under the same key as the first window of a line `a`, `c`, … */
  lemma MixedContexts(one: seq<string>, two: seq<string>, a: string, c: string)
    requires Separator(c) == "" && a != OriginWord && c != OriginWord && a + c != OriginWord
    requires |one| == 1 && one[0] == a + c
    requires |two| == 3 && two[0] == a && two[1] == c
    ensures TerminalEntry(one, 3).rule == a + c
    ensures Expected(two, 3, Continuation(0)).rule == a + c
  {
    SingleKey(one, a + c);
    FirstWindowKey(two);
  }

  /** A single token other than `origin` is its own key and the key of its
      own terminal. */
  lemma SingleKey(line: seq<string>, t: string)
    requires |line| == 1 && line[0] == t && t != OriginWord
    ensures TerminalEntry(line, 3).rule == t
  {
    assert Tail(line, 3) == line;
    SingleLiteral(line);
  }

  lemma SingleLiteral(ts: seq<string>)
    requires |ts| == 1 && ts[0] != OriginWord
    ensures Literal(ts, false) == ts[0]
  {
    var us, sp := SubstituteWordOrigin(ts), Spaces(ts);
    assert us[0] == ts[0] && sp[0] == "" && us[1..] == [] && sp[1..] == [];
    assert Interleave(us, sp) == us[0] + sp[0] + Interleave([], []);
  }

  /** The first window of a three-token line is filed under the key of its
      first two tokens. */
  lemma FirstWindowKey(line: seq<string>)
    requires |line| == 3 && line[0] != OriginWord && line[1] != OriginWord
    ensures Expected(line, 3, Continuation(0)).rule == line[0] + Separator(line[1]) + line[1]
  {
    var ctx := Context(line, 3, 0);
    assert |ctx| == 2 && ctx[0] == line[0] && ctx[1] == line[1];
    PairLiteral(ctx);
  }

  lemma PairLiteral(ts: seq<string>)
    requires |ts| == 2 && ts[0] != OriginWord && ts[1] != OriginWord
    ensures Literal(ts, false) == ts[0] + Separator(ts[1]) + ts[1]
  {
    var us, sp := SubstituteWordOrigin(ts), Spaces(ts);
    assert us[0] == ts[0] && us[1] == ts[1] && sp[0] == Separator(ts[1]) && sp[1] == "";
    assert us[1..][1..] == [] && sp[1..][1..] == [];
    assert Interleave(us[1..], sp[1..]) == us[1] + sp[1] + Interleave([], []);
    assert Interleave(us, sp) == us[0] + sp[0] + Interleave(us[1..], sp[1..]);
  }
  /** The corpus lines `xPUNC_PER` and `x. z` are the tokens `[xPUNC_PER]`
      and `[x, PUNC_PER, z]`. */
  lemma MixedTokens()
    ensures Tokenize("xPUNC_PER", false) == ["xPUNC_PER"]
    ensures Tokenize("x. z", false) == ["x", "PUNC_PER", "z"]
  {
    CodeWordTokens("xPUNC_PER");
    PeriodWordSplits("x. z");
  }

  /** With `n = 3`, the terminal of the line `[xPUNC_PER]` and the first
      window of the line `[x, PUNC_PER, z]` share the rule `xPUNC_PER`: a
      one-token context and a two-token context under one key. */
  lemma MixedContextsExample(one: seq<string>, two: seq<string>)
    requires |one| == 1 && one[0] == "xPUNC_PER"
    requires |two| == 3 && two[0] == "x" && two[1] == "PUNC_PER"
    ensures TerminalEntry(one, 3).rule == "xPUNC_PER"
    ensures Expected(two, 3, Continuation(0)).rule == "xPUNC_PER"
  {
    CodeHasCodePrefix("PUNC_PER");
    assert "x" + "PUNC_PER" == "xPUNC_PER";
    MixedContexts(one, two, "x", "PUNC_PER");
  }

  lemma PeriodWordSplits(s: string)
    requires |s| == 4 && s[0] == 'x' && s[1] == '.' && s[2] == ' ' && s[3] == 'z'
    ensures Tokenize(s, false) == ["x", "PUNC_PER", "z"]
  {
    assert s[..1] == "x" && s[3..] == "z";
    LettersPlain(s[..1]);
    LettersPlain(s[3..]);
    assert s == s[..1] + ("." + (" " + s[3..]));
    PeriodWord(s, s[..1], s[3..]);
  }

  /** A plain word, a period, a space and a plain word are three tokens. */
  lemma PeriodWord(s: string, a: string, b: string)
    requires |a| > 0 && |b| > 0 && Plain(a) && Plain(b) && s == a + ("." + (" " + b))
    ensures Tokenize(s, false) == [a, "PUNC_PER", b]
  {
    var t := " " + b;
    WordBefore(a, "." + t);
    assert Breaks(t) && t[0] != '.';
    PeriodBefore(t);
    TokSpace(t);
    assert t[1..] == b;
    WordBefore(b, "");
    assert b + "" == b;
    assert Split(EncodeScan("")) == [] by {
      assert EncodeScan("") == "";
    }
    assert Prepare(s, false) == s by {
      PrintableNoSpace(a);
      PrintableNoSpace(b);
      assert s[0] == a[0] && s[|s| - 1] == b[|b| - 1];
      StripKeeps(s);
    }
    ThreeTokens(a, b, Split(EncodeScan(s)), Split(EncodeScan("." + t)), Split(EncodeScan(t)), Split(EncodeScan(b)));
    TokensOf(s, false, [a, "PUNC_PER", b]);
  }

  lemma ThreeTokens(a: string, b: string, x: seq<string>, y: seq<string>, z: seq<string>, r: seq<string>)
    requires x == [a] + y && y == ["PUNC_PER"] + z && z == r && r == [b]
    ensures x == [a, "PUNC_PER", b]
  {
  }

  /** Rendering a token as terminal text and tokenising the text again need
      not give the token back: a corpus word `xPUNC_PER` is one token, its
      text is `x.`, and `x.` is two tokens. */
  lemma CodeWordRoundTrip()
    ensures Tokenize("xPUNC_PER", false) == ["xPUNC_PER"]
    ensures Literal(["xPUNC_PER"], true) == "x."
    ensures Tokenize("x.", false) == ["x", "PUNC_PER"]
  {
    CodeWordTokens("xPUNC_PER");
    CodeWordText();
    PeriodSplits("x.");
  }

  lemma CodeWordTokens(s: string)
    requires |s| == 9 && s[0] == 'x' && s[1..] == "PUNC_PER"
    ensures Tokenize(s, false) == [s]
  {
    LettersPlain(s);
    WordTokens(s);
  }

  lemma CodeWordText()
    ensures Literal(["xPUNC_PER"], true) == "x."
  {
    InterleaveOne("xPUNC_PER");
    assert "xPUNC_PER" == "x" + "PUNC_PER";
    WordThenCode("x", "PUNC_PER");
  }

  lemma PeriodSplits(s: string)
    requires |s| == 2 && s[0] == 'x' && s[1] == '.'
    ensures Tokenize(s, false) == ["x", "PUNC_PER"]
  {
    assert s[..1] == "x";
    LettersPlain(s[..1]);
    WordPeriodTokens(s);
  }

  /** The same holds for lowercased text: the tokens `a` and three
      `PUNC_PER` have the text `a...`, which is two tokens, the second an
      ellipsis. */
  lemma PeriodsRoundTrip()
    ensures Literal(["a", "PUNC_PER", "PUNC_PER", "PUNC_PER"], true) == "a..."
    ensures Tokenize("a...", true) == ["a", "0PUNC_EL"]
  {
    PeriodsText();
    EllipsisTokens("a...");
  }

  lemma PeriodsText()
    ensures Literal(["a", "PUNC_PER", "PUNC_PER", "PUNC_PER"], true) == "a..."
  {
    WordPeriodsText("a", "PUNC_PER");
  }

  lemma WordPeriodsText(w: string, p: string)
    requires forall i :: 0 <= i < |w| ==> 'a' <= w[i] <= 'z'
    requires p == "PUNC_PER"
    ensures Literal([w, p, p, p], true) == w + "..."
  {
    var codes := p + (p + (p + ""));
    TerminalIsDecodedJoin([w, p, p, p]);
    assert SpacedJoin([w, p, p, p]) == w + codes by {
      CodeHasCodePrefix(p);
      JoinBeforeCodes(w, p);
    }
    ThreePeriods(p);
    LowercaseDecodes(w, codes);
  }

  /** Lowercase letters pass through the decoder unchanged. */
  lemma LowercaseDecodes(w: string, x: string)
    requires forall i :: 0 <= i < |w| ==> 'a' <= w[i] <= 'z'
    ensures DecodeScan(w + x) == w + DecodeScan(x)
  {
    forall key | key in Marks
      ensures SharesNoChar(w, key)
    {
      CodesHaveNoLowercase();
    }
    ScanSkip(w, x, Marks, CodeWidth);
  }

  /** Codes are joined to what precedes them without a space. */
  lemma JoinBeforeCodes(w: string, p: string)
    requires HasCodePrefix(p)
    ensures SpacedJoin([w, p, p, p]) == w + (p + (p + (p + "")))
  {
    var ts := [w, p, p, p];
    assert SpacedJoin(ts[3..]) == p;
    assert SpacedJoin(ts[2..]) == p + "" + p;
    assert SpacedJoin(ts[1..]) == p + "" + (p + "" + p);
  }

  lemma ThreePeriods(p: string)
    requires p == "PUNC_PER"
    ensures DecodeScan(p + (p + (p + ""))) == "..."
  {
    DecodeCode(p, "");
    DecodeCode(p, p + "");
    DecodeCode(p, p + (p + ""));
  }

  lemma EllipsisTokens(s: string)
    requires |s| == 4 && s[0] == 'a' && s[1] == '.' && s[2] == '.' && s[3] == '.'
    ensures Tokenize(s, true) == ["a", "0PUNC_EL"]
  {
    assert s[..1] == "a";
    LettersPlain(s[..1]);
    WordEllipsisTokens(s, true);
  }
}
