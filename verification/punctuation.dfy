/**
 The punctuation codec: the fixed table of seven marks and their 8-character
 placeholder codes, the encoder that turns marks into codes before a line is
 split, and the decoder that turns codes back into marks when terminal text is
 rendered.
 */
module Punctuation {
  import opened Wrappers
  import opened Text

  /** Every placeholder code is this many characters long. */
  const CodeWidth: nat := 8

  /** The items of `Marks` in declaration order, which is also the order the
      decoder walks them. */
  const Table: seq<(string, string)> := [
    ("0PUNC_EL", "..."),
    ("PUNC_PER", "."),
    ("PUNC_QMK", "?"),
    ("PUNC_EPT", "!"),
    ("PUNC_COM", ","),
    ("PUNC_COL", ":"),
    ("PUNC_SEM", ";")
  ]

  /** The same items in ascending order of their codes: the order in which the
      encoder walks them. */
  const SortedTable: seq<(string, string)> := [
    ("0PUNC_EL", "..."),
    ("PUNC_COL", ":"),
    ("PUNC_COM", ","),
    ("PUNC_EPT", "!"),
    ("PUNC_PER", "."),
    ("PUNC_QMK", "?"),
    ("PUNC_SEM", ";")
  ]

  /** The `PUNCTUATION` table as a lookup from code to mark. */
  const Marks: map<string, string> := map[
    "0PUNC_EL" := "...",
    "PUNC_PER" := ".",
    "PUNC_QMK" := "?",
    "PUNC_EPT" := "!",
    "PUNC_COM" := ",",
    "PUNC_COL" := ":",
    "PUNC_SEM" := ";"
  ]

  /** The codes of the marks that end a sentence (`ENDINGS`). */
  const Endings: set<string> := {"PUNC_PER", "PUNC_QMK", "PUNC_EPT"}

  /** `t in PUNCTUATION`: the whole token is a code. */
  predicate IsCode(t: string) {
    t in Marks
  }

  /** Python's `t[:8]`. */
  function Head(t: string): string {
    if |t| <= CodeWidth then t else t[..CodeWidth]
  }

  /** `t[:8] in PUNCTUATION`: the token begins with a code. */
  predicate HasCodePrefix(t: string) {
    Head(t) in Marks
  }

  /** `t in ENDINGS`. */
  predicate EndsSentence(t: string) {
    t in Endings
  }

  /** The (mark, space + code) replacements of the encoder, in the order it
      applies them. */
  function EncodePairs(): seq<(string, string)> {
    seq(|SortedTable|, k requires 0 <= k < |SortedTable| => (SortedTable[k].1, " " + SortedTable[k].0))
  }

  /** Encodes a line: every mark is replaced by a space and its code. */
  function Encode(line: string): string {
    ReplaceEach(line, EncodePairs())
  }

  /** Decodes rendered text: every code is replaced by its mark. */
  function Decode(text: string): string {
    ReplaceEach(text, Table)
  }

  /** The code whose mark is `mark`, looked up in `items`. */
  function CodeFor(mark: string, items: seq<(string, string)>): (r: Option<string>)
    ensures r.Some? ==> exists k :: 0 <= k < |items| && items[k] == (r.value, mark)
    ensures r.None? ==> forall k :: 0 <= k < |items| ==> items[k].1 != mark
  {
    if |items| == 0 then None
    else if items[0].1 == mark then Some(items[0].0)
    else
      var r := CodeFor(mark, items[1..]);
      assert forall k :: 0 < k < |items| ==> items[k] == items[1..][k - 1];
      r
  }

  /** Reference encoder: a single left-to-right pass that, at each position,
      replaces the longest mark starting there (an ellipsis, the only mark
      longer than one character, before a period) by a space and its code. */
  function EncodeScan(s: string): string
    decreases |s|
  {
    if |s| == 0 then ""
    else if 3 <= |s| && s[..3] == "..." then " " + "0PUNC_EL" + EncodeScan(s[3..])
    else if CodeFor([s[0]], Table).Some? then " " + CodeFor([s[0]], Table).value + EncodeScan(s[1..])
    else [s[0]] + EncodeScan(s[1..])
  }

  /** Reference decoder: a single left-to-right pass that replaces each code by
      its mark. */
  function DecodeScan(s: string): string {
    Scan(s, Marks, CodeWidth)
  }

  //
  // Facts about the table
  //

  /** The items list exactly the table. */
  lemma TableListsMarks()
    ensures MapOf(Table) == Marks
  {
  }

  /** The sorted items list the same table. */
  lemma SortedTableListsMarks()
    ensures MapOf(SortedTable) == Marks
  {
  }

  /** All seven codes are exactly eight characters long and every mark is
      non-empty. */
  lemma TableShape()
    ensures |Table| == |Marks| == 7
    ensures forall k :: 0 <= k < |Table| ==> |Table[k].0| == CodeWidth && |Table[k].1| > 0
    ensures forall c :: c in Marks ==> |c| == CodeWidth
  {
  }

  /** No two items share a code. */
  lemma TableDistinct()
    ensures forall k, l :: 0 <= k < l < |Table| ==> Table[k].0 != Table[l].0
  {
  }

  /** Python's `<` on strings: lexicographic order of code points. */
  predicate StrLess(a: string, b: string)
    decreases |a|
  {
    if |a| == 0 then |b| > 0
    else if |b| == 0 then false
    else if a[0] != b[0] then a[0] < b[0]
    else StrLess(a[1..], b[1..])
  }

  /** `SortedTable` is `sorted(PUNCTUATION.items())`: the items of `Table`
      rearranged (item `k` is item `SortedOrder[k]` of `Table`) into strictly
      ascending order of code, so the ellipsis comes first. */
  lemma SortedTableIsSorted()
    ensures |SortedTable| == |Table|
    ensures forall k :: 0 <= k < |SortedTable| ==> 0 <= SortedOrder[k] < |Table| && SortedTable[k] == Table[SortedOrder[k]]
    ensures forall k, l :: 0 <= k < l < |SortedOrder| ==> SortedOrder[k] != SortedOrder[l]
    ensures forall i :: 0 <= i < |SortedTable| - 1 ==> StrLess(SortedTable[i].0, SortedTable[i + 1].0)
    ensures SortedTable[0] == ("0PUNC_EL", "...")
  {
    SortedTableRearranges();
    SortedTableAscends();
  }

  lemma SortedTableRearranges()
    ensures |SortedTable| == |Table|
    ensures forall k :: 0 <= k < |SortedTable| ==> 0 <= SortedOrder[k] < |Table| && SortedTable[k] == Table[SortedOrder[k]]
    ensures forall k, l :: 0 <= k < l < |SortedOrder| ==> SortedOrder[k] != SortedOrder[l]
  {
  }

  lemma SortedTableAscends()
    ensures forall i :: 0 <= i < |SortedTable| - 1 ==> StrLess(SortedTable[i].0, SortedTable[i + 1].0)
  {
  }

  /** Where each item of `SortedTable` sits in `Table`. */
  const SortedOrder: seq<nat> := [0, 5, 4, 3, 1, 2, 6]

  /** Where each item of `Table` sits in `SortedTable`. */
  const TableOrder: seq<nat> := [0, 4, 5, 3, 2, 1, 6]

  lemma TableInSorted()
    ensures |TableOrder| == |Table|
    ensures forall k :: 0 <= k < |Table| ==> 0 <= TableOrder[k] < |SortedTable| && Table[k] == SortedTable[TableOrder[k]]
  {
  }

  /** The token-level test `t[:8] in PUNCTUATION` holds exactly when the token
      is at least eight characters long and its first eight form a code. */
  lemma HasCodePrefixIff(t: string)
    ensures HasCodePrefix(t) <==> CodeWidth <= |t| && t[..CodeWidth] in Marks
  {
    if |t| < CodeWidth {
      CodeWidthOf(t);
    } else if |t| == CodeWidth {
      assert Head(t) == t == t[..CodeWidth];
    } else {
      assert Head(t) == t[..CodeWidth];
    }
  }

  lemma CodeWidthOf(t: string)
    ensures t in Marks ==> |t| == CodeWidth
  {
  }

  /** A token that is a code begins with a code. */
  lemma CodeHasCodePrefix(t: string)
    ensures IsCode(t) ==> HasCodePrefix(t)
  {
    TableShape();
    assert t in Marks ==> |t| == CodeWidth;
  }

  /** The characters marks are made of. */
  const MarkChars: string := ".?!,:;"

  lemma MarksUseMarkChars()
    ensures forall k, i :: 0 <= k < |Table| && 0 <= i < |Table[k].1| ==> Table[k].1[i] in MarkChars
  {
  }

  lemma CodesAvoidMarkChars()
    ensures forall k, i :: 0 <= k < |Table| && 0 <= i < |Table[k].0| ==> Table[k].0[i] !in MarkChars
  {
  }

  /** The encoder's patterns and replacements are non-empty. */
  lemma EncodePairsShape()
    ensures NonEmptyPairs(EncodePairs())
  {
  }

  /** No mark shares a character with a code. */
  lemma TableUnrecreatable()
    ensures Unrecreatable(Table)
  {
    MarksUseMarkChars();
    CodesAvoidMarkChars();
  }

  lemma SortedMarkChars()
    ensures forall k, i :: 0 <= k < |SortedTable| && 0 <= i < |SortedTable[k].1| ==> SortedTable[k].1[i] in MarkChars
    ensures forall k, i :: 0 <= k < |SortedTable| && 0 <= i < |SortedTable[k].0| ==> SortedTable[k].0[i] !in MarkChars
  {
  }

  /** No mark shares a character with a space followed by a code. */
  lemma EncodePairsUnrecreatable()
    ensures Unrecreatable(EncodePairs())
  {
    SortedMarkChars();
    var pairs := EncodePairs();
    forall k, l | 0 <= k < |pairs| && 0 <= l < |pairs|
      ensures SharesNoChar(pairs[k].0, pairs[l].1)
    {
      forall i | 0 <= i < |pairs[k].0|
        ensures pairs[k].0[i] !in pairs[l].1
      {
        assert pairs[k].0[i] in MarkChars;
        assert forall j :: 0 < j < |pairs[l].1| ==> pairs[l].1[j] == SortedTable[l].0[j - 1];
      }
    }
  }

  /** After encoding, no mark (not even a lone period of an ellipsis) is left in
      the line. */
  lemma EncodeRemovesMarks(line: string)
    ensures forall k :: 0 <= k < |Table| ==> !Occurs(Encode(line), Table[k].1)
  {
    var pairs := EncodePairs();
    EncodePairsShape();
    EncodePairsUnrecreatable();
    ReplaceEachLeavesNone(line, pairs);
    forall k | 0 <= k < |Table|
      ensures !Occurs(Encode(line), Table[k].1)
    {
      TableInSorted();
      assert pairs[TableOrder[k]].0 == Table[k].1;
    }
  }

  /** After decoding, no code is left in the text. */
  lemma DecodeRemovesCodes(text: string)
    ensures forall c :: c in Marks ==> !Occurs(Decode(text), c)
  {
    TableNonEmpty();
    TableUnrecreatable();
    ReplaceEachLeavesNone(text, Table);
    MarksInTable();
    forall c | c in Marks
      ensures !Occurs(Decode(text), c)
    {
      var k :| 0 <= k < |Table| && Table[k].0 == c;
    }
  }

  lemma TableNonEmpty()
    ensures NonEmptyPairs(Table)
  {
  }

  /** Every code of `Marks` is the code of an item of `Table`. */
  lemma MarksInTable()
    ensures forall c :: c in Marks ==> exists k :: 0 <= k < |Table| && Table[k].0 == c
  {
    TableListsMarks();
    MapOfKeys(Table);
  }

  /** Every code ends in one of `LRKTM`; before its last position only
      `PUNC_QMK` carries one of those letters, in its seventh place. */
  lemma CodeLetters()
    ensures forall c :: c in Marks ==> c[CodeWidth - 1] in "LRKTM"
    ensures forall c, i :: c in Marks && 0 <= i < CodeWidth - 1 && c[i] in "LRKTM" ==> c == "PUNC_QMK" && i == 6
    ensures forall c :: c in Marks && c[CodeWidth - 1] == 'M' ==> c[1] == 'U'
    ensures forall c :: c in Marks ==> c[0] in "0P"
  {
    CodeLastLetters();
    CodeInnerLetters();
    CodeFirstLetters();
  }

  lemma CodeLastLetters()
    ensures forall c :: c in Marks ==> c[CodeWidth - 1] in "LRKTM"
    ensures forall c :: c in Marks && c[CodeWidth - 1] == 'M' ==> c[1] == 'U'
  {
  }

  lemma CodeInnerLetters()
    ensures forall c, i :: c in Marks && 0 <= i < CodeWidth - 1 && c[i] in "LRKTM" ==> c == "PUNC_QMK" && i == 6
  {
  }

  lemma CodeFirstLetters()
    ensures forall c :: c in Marks ==> c[0] in "0P"
  {
  }

  /** Codes are written in capitals, digits and `_`: no code holds a
      lowercase ASCII letter, and each has a capital in its second place. */
  lemma CodesHaveNoLowercase()
    ensures forall c, i :: c in Marks && 0 <= i < |c| ==> !('a' <= c[i] <= 'z')
    ensures forall c :: c in Marks ==> 'A' <= c[1] <= 'Z'
  {
  }

  /** No proper suffix of a code is a prefix of a code, so codes can never
      overlap in a text. */
  lemma CodesDoNotOverlap()
    ensures NoOverlap(Marks.Keys, CodeWidth)
  {
    CodeLetters();
    forall a, b, j | a in Marks && b in Marks && 0 < j < CodeWidth
      ensures a[j..CodeWidth] != b[..CodeWidth - j]
    {
      var x, y := a[j..CodeWidth], b[..CodeWidth - j];
      assert x[CodeWidth - 1 - j] == a[CodeWidth - 1] && y[CodeWidth - 1 - j] == b[CodeWidth - 1 - j];
      assert x[0] == a[j] && y[0] == b[0];
    }
  }

  /** The decoder's seven passes, one per code, do what a single left-to-right
      scan replacing each code by its mark does. */
  lemma DecodeIsScan(text: string)
    ensures Decode(text) == DecodeScan(text)
  {
    TableShape();
    TableDistinct();
    TableListsMarks();
    CodesDoNotOverlap();
    TableUnrecreatable();
    ReplaceEachIsScan(text, Table, CodeWidth);
  }

  //
  // The encoder as a single pass
  //

  /** The encoder's passes after the first (ellipsis) one: all of them replace
      a single character. */
  function RestPairs(): seq<(string, string)> {
    EncodePairs()[1..]
  }

  lemma RestPairsItems()
    ensures |RestPairs()| == |SortedTable| - 1
    ensures forall k :: 0 <= k < |RestPairs()| ==> RestPairs()[k] == (SortedTable[k + 1].1, " " + SortedTable[k + 1].0)
  {
  }

  lemma RestPairsNeedles()
    ensures forall k :: 0 <= k < |RestPairs()| ==> |RestPairs()[k].0| == 1 && RestPairs()[k].0[0] in MarkChars
  {
    RestPairsItems();
    SortedMarkChars();
    forall k | 0 <= k < |RestPairs()|
      ensures |RestPairs()[k].0| == 1 && RestPairs()[k].0[0] in MarkChars
    {
      assert |SortedTable[k + 1].1| == 1;
    }
  }

  lemma RestPairsUnrecreatable()
    ensures Unrecreatable(RestPairs())
  {
    EncodePairsUnrecreatable();
    var pairs, rest := EncodePairs(), RestPairs();
    assert forall k :: 0 <= k < |rest| ==> rest[k] == pairs[k + 1];
  }

  /** No two items share a mark. */
  lemma SortedMarksDistinct()
    ensures forall k, l :: 0 <= k < l < |SortedTable| ==> SortedTable[k].1 != SortedTable[l].1
  {
  }

  /** A mark three characters long can only be the ellipsis. */
  lemma EllipsisCode(m: string)
    ensures CodeFor(m, Table).Some? && |m| == 3 ==> m == "..." && CodeFor(m, Table).value == "0PUNC_EL"
  {
  }

  /** A space followed by a code contains no mark character, so the
      one-character passes leave it alone. */
  lemma SpacedCodeUntouched(code: string)
    ensures code in Marks ==> ReplaceEach(" " + code, RestPairs()) == " " + code
  {
    var v := " " + code;
    CodeAvoidsMarkChars(code);
    assert forall i :: 0 < i < |v| ==> v[i] == code[i - 1];
    NoMarkCharUntouched(v);
  }

  lemma CodeAvoidsMarkChars(code: string)
    ensures code in Marks ==> forall i :: 0 <= i < |code| ==> code[i] !in MarkChars
  {
  }

  /** Text without mark characters passes the one-character passes unchanged. */
  lemma NoMarkCharUntouched(v: string)
    ensures (forall i :: 0 <= i < |v| ==> v[i] !in MarkChars) ==> ReplaceEach(v, RestPairs()) == v
  {
    if forall i :: 0 <= i < |v| ==> v[i] !in MarkChars {
      RestPairsNeedles();
      AbsentCharsUntouched(v, RestPairs(), MarkChars);
    }
  }

  /** On one character, the one-character passes produce a space and its code
      when it is a mark, and the character itself otherwise. */
  lemma RestOnChar(c: char)
    ensures ReplaceEach([c], RestPairs()) == if CodeFor([c], Table).Some? then " " + CodeFor([c], Table).value else [c]
  {
    RestPairsNeedles();
    RestPairsUnrecreatable();
    ReplaceEachOnChar(c, RestPairs());
    var g := CodeFor([c], Table);
    if g.Some? {
      var k :| 0 <= k < |Table| && Table[k] == (g.value, [c]);
      RestFindsMark(k);
    } else {
      RestMissesMark(c);
    }
  }

  lemma RestNeedlesDistinct()
    ensures forall k, l :: 0 <= k < l < |RestPairs()| ==> RestPairs()[k].0 != RestPairs()[l].0
  {
    RestPairsItems();
    SortedMarksDistinct();
  }

  /** A one-character mark of `Table` is found among the one-character passes,
      with its own code. */
  lemma RestFindsMark(k: int)
    requires 0 <= k < |Table| && |Table[k].1| == 1
    ensures FirstSub(Table[k].1, RestPairs()) == Some(" " + Table[k].0)
  {
    RestPairsItems();
    RestNeedlesDistinct();
    TableInSorted();
    var j := TableOrder[k];
    assert j != 0 by { assert |SortedTable[0].1| == 3; }
    assert RestPairs()[j - 1] == (Table[k].1, " " + Table[k].0);
    FirstSubUnique(Table[k].1, RestPairs(), j - 1);
  }

  /** A character that is no mark of `Table` is no pattern of the passes. */
  lemma RestMissesMark(c: char)
    requires CodeFor([c], Table).None?
    ensures FirstSub([c], RestPairs()).None?
  {
    RestPairsItems();
    SortedTableIsSorted();
    forall i | 0 <= i < |RestPairs()|
      ensures RestPairs()[i].0 != [c]
    {
      assert SortedTable[i + 1] == Table[SortedOrder[i + 1]];
    }
  }

  /** The passes after the ellipsis pass, applied to the text the ellipsis pass
      produced, do what the single pass does. */
  lemma {:induction false} EncodeTail(s: string)
    ensures ReplaceEach(Replace(s, "...", EllipsisSub()), RestPairs()) == EncodeScan(s)
    decreases |s|
  {
    RestPairsNeedles();
    var rest := RestPairs();
    if |s| == 0 {
      ReplaceEachAbsent("", rest);
    } else if 3 <= |s| && s[..3] == "..." {
      var tail := Replace(s[3..], "...", EllipsisSub());
      assert Replace(s, "...", EllipsisSub()) == EllipsisSub() + tail;
      ReplaceEachCharConcat(EllipsisSub(), tail, rest);
      SpacedCodeUntouched("0PUNC_EL");
      EncodeTail(s[3..]);
    } else {
      var tail := Replace(s[1..], "...", EllipsisSub());
      assert Replace(s, "...", EllipsisSub()) == [s[0]] + tail;
      ReplaceEachCharConcat([s[0]], tail, rest);
      RestOnChar(s[0]);
      EncodeTail(s[1..]);
    }
  }

  /** What the ellipsis pass puts in place of an ellipsis. */
  function EllipsisSub(): string {
    " " + "0PUNC_EL"
  }

  lemma EncodeFirstPair()
    ensures EncodePairs()[0] == ("...", EllipsisSub())
  {
    assert SortedTable[0] == ("0PUNC_EL", "...");
  }

  /** The encoder's seven passes, one per mark in ascending order of code, do
      what a single left-to-right pass does that turns each ellipsis, and then
      each remaining mark, into a space and its code. */
  lemma EncodeIsScan(line: string)
    ensures Encode(line) == EncodeScan(line)
  {
    EncodeFirstPair();
    EncodeTail(line);
  }

  //
  // Single steps of the codec
  //

  /** A character that is not part of a mark has no code. */
  lemma CodeForPlain(c: char)
    requires c !in MarkChars
    ensures CodeFor([c], Table).None?
  {
    MarksUseMarkChars();
    TableShape();
    forall k | 0 <= k < |Table|
      ensures Table[k].1 != [c]
    {
      assert Table[k].1[0] in MarkChars;
    }
  }

  /** The encoder copies a character that is not part of a mark. */
  lemma EncodeScanPlain(s: string)
    requires |s| > 0 && s[0] !in MarkChars
    ensures EncodeScan(s) == [s[0]] + EncodeScan(s[1..])
  {
    CodeForPlain(s[0]);
    assert !(3 <= |s| && s[..3] == "...") by {
      assert 3 <= |s| ==> s[..3][0] == s[0];
    }
  }

  /** Text without a mark character passes through the encoder unchanged. */
  lemma {:induction false} EncodeSkips(w: string, t: string)
    requires forall i :: 0 <= i < |w| ==> w[i] !in MarkChars
    ensures EncodeScan(w + t) == w + EncodeScan(t)
    decreases |w|
  {
    if |w| > 0 {
      EncodeSkips(w[1..], t);
      EncodeSkipsStep(w, t);
    } else {
      assert w + t == t;
    }
  }

  lemma EncodeSkipsStep(w: string, t: string)
    requires |w| > 0 && w[0] !in MarkChars
    requires EncodeScan(w[1..] + t) == w[1..] + EncodeScan(t)
    ensures EncodeScan(w + t) == w + EncodeScan(t)
  {
    var s := w + t;
    assert s[0] == w[0] && s[1..] == w[1..] + t;
    EncodeScanPlain(s);
    ConsThenRest(w, EncodeScan(s), EncodeScan(s[1..]), EncodeScan(t));
  }

  lemma ConsThenRest(w: string, a: string, b: string, c: string)
    requires |w| > 0 && a == [w[0]] + b && b == w[1..] + c
    ensures a == w + c
  {
    assert w == [w[0]] + w[1..];
  }

  /** A period that does not begin an ellipsis becomes a space and its code. */
  lemma EncodePeriod(s: string)
    requires |s| > 0 && s[0] == '.' && (|s| < 2 || s[1] != '.')
    ensures EncodeScan(s) == " " + ("PUNC_PER" + EncodeScan(s[1..]))
  {
    var v := CodeFor([s[0]], Table);
    assert v == Some("PUNC_PER") by {
      assert [s[0]] == ".";
      PeriodCode();
    }
    NotEllipsis(s);
    EncodeScanMark(s);
    SpacedCode(EncodeScan(s), v.value, EncodeScan(s[1..]), EncodeScan(s[1..]));
  }

  lemma PeriodCode()
    ensures CodeFor(".", Table) == Some("PUNC_PER")
  {
    assert Table[0].1 != ".";
    assert Table[1..][0] == ("PUNC_PER", ".");
  }

  /** Text whose second character is not a period does not begin with an
      ellipsis. */
  lemma NotEllipsis(s: string)
    requires |s| < 3 || s[1] != '.'
    ensures !(3 <= |s| && s[..3] == "...")
  {
    if 3 <= |s| {
      assert s[..3][1] != "..."[1];
    }
  }

  /** The encoder turns a single mark that does not begin an ellipsis into a
      space and its code. */
  lemma EncodeScanMark(s: string)
    requires |s| > 0 && !(3 <= |s| && s[..3] == "...") && CodeFor([s[0]], Table).Some?
    ensures EncodeScan(s) == " " + CodeFor([s[0]], Table).value + EncodeScan(s[1..])
  {
  }

  lemma SpacedCode(a: string, v: string, b: string, c: string)
    requires v == "PUNC_PER" && a == " " + v + b && b == c
    ensures a == " " + ("PUNC_PER" + c)
  {
  }

  /** An ellipsis becomes a space and its single code. */
  lemma EncodeEllipsis(s: string)
    requires |s| >= 3 && s[0] == '.' && s[1] == '.' && s[2] == '.'
    ensures EncodeScan(s) == " " + ("0PUNC_EL" + EncodeScan(s[3..]))
  {
    assert s[..3] == "..." by {
      assert |s[..3]| == 3 && s[..3][0] == '.' && s[..3][1] == '.' && s[..3][2] == '.';
    }
    EllipsisSpaced(EncodeScan(s), EncodeScan(s[3..]));
  }

  lemma EllipsisSpaced(a: string, b: string)
    requires a == " " + "0PUNC_EL" + b
    ensures a == " " + ("0PUNC_EL" + b)
  {
  }

  /** A code followed by more text decodes to its mark, then the rest. */
  lemma DecodeCode(code: string, t: string)
    requires code in Marks
    ensures DecodeScan(code + t) == Marks[code] + DecodeScan(t)
  {
    TableShape();
    assert (code + t)[..CodeWidth] == code && (code + t)[CodeWidth..] == t;
  }
}
