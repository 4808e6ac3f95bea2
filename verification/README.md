# Tracery Markov model maker, in Dafny

This project models `corpus_to_tracery_json`. That function compiles a text corpus into a weighted Tracery grammar that behaves like an n-gram Markov chain. The pipeline has five parts:

1. Each line is stripped and optionally lowercased. Every punctuation mark becomes a space plus an eight-character placeholder code. The line is then split on whitespace.
2. Each window of `n` tokens files a continuation: its first token as text, then a `#…#` reference to the rule of its last `n - 1` tokens. The continuation goes under the key of the window's first `n - 1` tokens. Windows that begin a sentence also add a reference under `start_boundary`.
3. Each line files one terminal: the decoded text of its last `n - 1` tokens.
4. Every rule with more than one option is reduced. Each distinct option is repeated its count divided by the gcd of all the rule's counts, in first-occurrence order.
5. The `origin` rule is seeded with `#start_boundary#`.

Modules, in dependency order:

- `Wrappers`: `Option` and `Result`.
- `Text`: Python's `str.replace`, repeated replacement over a list of pairs, and a reference single-pass scanner `Scan`.
- `Punctuation`: the `PUNCTUATION` and `ENDINGS` tables, and the encoder and decoder built on them.
- `Tokenizer`: `strip`, ASCII `lower`, `split` and their composition `Tokenize`.
- `Render`: `_get_spaces`, `_substitute_word_origin`, `_symbol`, `_literal` and `_ngram`.
- `Gcd`: Euclid's gcd and its fold over a sequence, which is `_gcd_of_seq`.
- `Extract`: the appends one tokenised line makes, as a sequence of tagged entries.
- `Reduce`: the per-rule weight reduction, as a function and as the source's counting loops.
- `Grammar`: the seed, the fold of every line's appends into a `defaultdict(list)`, the reduction, and the command line's refusal of `n < 2`.
- `Scenarios`: worked examples. The line `Hello world. Good morning.` goes through the tokenizer and then the extractor with `n = 3`. Two small lines show that rendering and re-tokenising is not a round trip. The rule `[x, x, x, x, y, y, y, y, z, z]` goes through the reducer.

Modelling choices:

- A line is a `seq<string>` of tokens.
- The grammar is a `map<string, seq<string>>`.
- A `defaultdict(list)` append is `Grammar.Append`.
- Whitespace is the fixed set of characters for which Python's `str.isspace` holds.
- Lowercasing covers ASCII letters only.

## Model

| member | source | states |
|---|---|---|
| Punctuation.SortedTableIsSorted | tracery_markov_model.py:76 | The encoder's table is a permutation of `PUNCTUATION`'s items in strictly ascending code order, so `0PUNC_EL` (the ellipsis) comes first. |
| Punctuation.HasCodePrefixIff | tracery_markov_model.py:28 | `t[:8] in PUNCTUATION` holds exactly when `t` has at least eight characters and its first eight are a code. |
| Punctuation.CodesDoNotOverlap | tracery_markov_model.py:13-21 | No proper suffix of one code is a prefix of another. Two codes can therefore never overlap in a text. |
| Punctuation.EncodeIsScan | tracery_markov_model.py:76-77 | The sorted chain of `replace(v, ' ' + k)` equals one left-to-right pass. That pass turns `...` into a single ellipsis code before any single period is encoded, and turns every other mark into a space plus its code. |
| Punctuation.EncodeRemovesMarks | tracery_markov_model.py:76-77 | No mark is left in an encoded line. |
| Punctuation.DecodeIsScan | tracery_markov_model.py:47-49 | Replacing every code by its mark in table order equals one left-to-right pass that decodes each code where it stands. |
| Punctuation.DecodeRemovesCodes | tracery_markov_model.py:47-49 | No code is left in decoded text. |
| Text.ReplaceRemovesAll | tracery_markov_model.py:77 | When the needle shares no character with its replacement, `str.replace` leaves no occurrence of the needle. |
| Text.ReplaceKeepsAbsent | tracery_markov_model.py:77 | A pattern that shares no character with the replacement occurs after `str.replace` only if it occurred before. |
| Text.ReplaceEachLeavesNone | tracery_markov_model.py:48-77 | When no replacement can recreate an earlier needle, a chain of `str.replace` calls leaves none of its needles. |
| Text.ReplaceEachIsScan | tracery_markov_model.py:48-49 | A chain of replacements with equal-width, non-overlapping needles equals a single left-to-right scan with the same map. |
| Tokenizer.Strip | tracery_markov_model.py:73 | The stripped line is a slice of the input with only whitespace before and after it, and it neither starts nor ends with whitespace. |
| Tokenizer.LowerKeepsMarks | tracery_markov_model.py:74-75 | Lowercasing keeps the length and leaves every mark and whitespace character in place. It leaves no uppercase ASCII letter and is idempotent. Lowercasing therefore cannot disturb the encoding that follows it. |
| Tokenizer.LoweredHoldsNoCode | tracery_markov_model.py:74-77 | A lowercased line contains no code. In a lowercased corpus, therefore, every code in an encoded line was put there by the encoder. |
| Tokenizer.SplitKeepsText | tracery_markov_model.py:78 | Concatenated, the tokens are exactly the non-whitespace characters of the line, in order. |
| Tokenizer.SplitLayout | tracery_markov_model.py:78 | The line is its tokens interleaved with gaps. Every gap is whitespace only, every gap between two tokens is non-empty, and no token is empty or holds whitespace. Each token is therefore a maximal run of non-whitespace characters. |
| Tokenizer.SplitOfLayout | tracery_markov_model.py:78 | Conversely, splitting any such interleaving gives back exactly its tokens. `split()` is therefore the only cut of a line into maximal runs. |
| Tokenizer.SplitTokensOccur | tracery_markov_model.py:78 | Every token is a contiguous piece of the line. |
| Tokenizer.SplitJoinSpaced | tracery_markov_model.py:78 | Splitting undoes joining with single spaces, for tokens that are non-empty and hold no whitespace. |
| Tokenizer.Tokenize | tracery_markov_model.py:73-78 | The stripped, optionally lowercased, encoded line is the tokens interleaved with whitespace gaps, non-empty between two tokens. No token is empty, holds whitespace, or contains a punctuation mark. |
| Render.SpacesRule | tracery_markov_model.py:26-29 | There is exactly one separator per token. It is empty after the last token or before a token whose first eight characters are a code, and one space otherwise. |
| Render.SubstituteWordOriginRule | tracery_markov_model.py:32-33 | Same length. A token equal to `origin` becomes `WORD_ORIGIN`, every other token is unchanged, and no token equals `origin` afterwards. |
| Render.SubstituteCollides | tracery_markov_model.py:32-39 | Token lists that differ only where one has `origin` and the other `WORD_ORIGIN` render the same key and the same symbol. The substitution is not one to one. |
| Render.InterleaveIsSpacedJoin | tracery_markov_model.py:36-46 | Zipping tokens with their separators is the reference join, which puts one space between tokens except before a code. |
| Render.SubstitutedSpaces | tracery_markov_model.py:37-38 | Substituting `origin` does not change any separator. |
| Render.SymbolNamesKey | tracery_markov_model.py:36-46 | `_symbol(ts)` is `#` + `_literal(ts)` + `#`. |
| Render.KeyIsSpacedJoin | tracery_markov_model.py:42-46 | A rule key is the spaced join of the tokens after `origin` is substituted. |
| Render.TerminalIsDecodedJoin | tracery_markov_model.py:42-50 | Terminal text is the decoded spaced join of the tokens, with `origin` kept, and it contains no code. |
| Render.KeyIsNotOrigin | tracery_markov_model.py:32-46 | No rule key rendered from tokens equals `origin`. |
| Render.NgramShape | tracery_markov_model.py:53-58 | A continuation is the decoded first token, then nothing if the second token begins with a code (a space otherwise), then a reference to the rule of the remaining tokens. |
| Gcd.GcdDivides | tracery_markov_model.py:93 | `gcd(a, b)` divides both arguments. |
| Gcd.GcdGreatest | tracery_markov_model.py:93 | Every common divisor of `a` and `b` divides `gcd(a, b)`. |
| Gcd.GcdSeqFacts | tracery_markov_model.py:61-64 | For positive counts, `_gcd_of_seq` is positive, divides every count, and is divisible by every common divisor. A single count is its own gcd. |
| Extract.Tail | tracery_markov_model.py:85 | `line[-n+1:]` is the last `n - 1` tokens, or the whole line when it is shorter. |
| Extract.Window | tracery_markov_model.py:81-84 | A window has `n` tokens. Its first `n - 1` are its own context and its last `n - 1` are the next window's context. |
| Extract.LineContinuations | tracery_markov_model.py:79-84 | A line of L tokens files exactly max(0, L - n + 1) continuations, one per window, in window order. |
| Extract.LineStarts | tracery_markov_model.py:82-83 | A window files a sentence start exactly when it is the first window, or when the previous token is a whole `ENDINGS` code and its own first token is not a whole code. Starts come in increasing window order, and a line shorter than `n` files none. |
| Extract.LineTerminal | tracery_markov_model.py:85-86 | Every line files exactly one terminal, and it is the line's last append. |
| Extract.EmptyLineTerminal | tracery_markov_model.py:85-86 | An empty line files only the terminal `''` under the key `''`. |
| Extract.LineReferencesResolve | tracery_markov_model.py:81-86 | Every non-terminal append of a line ends with a `#key#` reference whose key the same line registers with a continuation or its terminal. |
| Extract.ReferenceTarget | tracery_markov_model.py:84-86 | The continuation of window `i` and the terminal each appear among the line's appends. |
| Extract.StartReference | tracery_markov_model.py:83-84 | A sentence start for window `i` references the key of window `i`'s continuation. |
| Extract.ContinuationReference | tracery_markov_model.py:84-86 | The continuation of window `i` references the key of window `i + 1`, or the terminal's key when `i` is the last window. |
| Extract.LineNeverFilesOrigin | tracery_markov_model.py:32-86 | No append of a line is filed under `origin`. |
| Extract.SentenceStartsExactly | tracery_markov_model.py:82-83 | The sentence starts from window `i` onward are exactly the windows from `i` that pass the start test. |
| Reduce.RemoveAllMembers | tracery_markov_model.py:95-96 | Removing every copy of `x` keeps exactly the other options. |
| Reduce.DistinctFacts | tracery_markov_model.py:90-92 | The distinct options, in first-occurrence order, are exactly the options, with no repeats. |
| Reduce.DistinctSnoc | tracery_markov_model.py:91-92 | Counting one more option adds it as a new key at the end only if it was not already counted. |
| Reduce.ExpandMultiset | tracery_markov_model.py:94-96 | Expanding the distinct keys gives each key its count divided by the factor, and nothing else. |
| Reduce.FactorIsGcd | tracery_markov_model.py:93 | The factor divides every option's count and is the greatest such divisor. |
| Reduce.ReduceSingle | tracery_markov_model.py:89 | A rule with at most one option is left untouched. |
| Reduce.ReduceScalesCounts | tracery_markov_model.py:88-97 | After reduction, every option's count times the gcd is its original count. |
| Reduce.ReduceKeepsOptions | tracery_markov_model.py:88-97 | Reduction neither drops an option nor invents one. |
| Reduce.ReduceKeepsRatios | tracery_markov_model.py:88-97 | Reduction preserves the ratio between the counts of any two options. |
| Reduce.ReduceKeepsOrder | tracery_markov_model.py:90-96 | The options of a reduced rule appear in the same first-occurrence order as before. |
| Reduce.ReducedFactorIsOne | tracery_markov_model.py:93-96 | The counts of a reduced rule have gcd 1, so no further reduction is possible. |
| Reduce.ReduceIdempotent | tracery_markov_model.py:88-97 | Reducing twice is the same as reducing once. |
| Reduce.ReduceGrammarKeepsRules | tracery_markov_model.py:88-97 | Reducing the grammar keeps every rule. Each rule keeps its options and their first-occurrence order, and the ratio between any two options' counts. A rule with more than one option ends with counts whose gcd is 1. |
| Reduce.ReduceGrammarIdempotent | tracery_markov_model.py:88-97 | Reducing the whole grammar twice is the same as reducing it once. |
| Reduce.CountOptions | tracery_markov_model.py:90-92 | The counting loop leaves a count for exactly the options that occur, each equal to its number of occurrences. Its keys come in first-occurrence order. |
| Reduce.GcdOfCounts | tracery_markov_model.py:61-93 | The loop folding `gcd` over the counts computes the sequence gcd. |
| Reduce.FactorOfCounts | tracery_markov_model.py:93 | The gcd of the counted values is the rule's reduction factor. |
| Reduce.ExpandKeys | tracery_markov_model.py:94-96 | The expansion loop builds the options of the reduced rule. |
| Reduce.ReduceRule | tracery_markov_model.py:89-97 | The imperative reduction of one rule equals the functional reduction. |
| Grammar.AppendAllFiles | tracery_markov_model.py:68-86 | After a series of `defaultdict(list)` appends, the rules are the old ones plus every rule appended to. Each rule holds its old options followed by everything appended to it, in order. |
| Grammar.CorpusNeverFilesOrigin | tracery_markov_model.py:69-86 | No line of the corpus appends anything under `origin`. |
| Grammar.OriginStaysAccumulated | tracery_markov_model.py:69-86 | Before reduction, `origin` is exactly `['#start_boundary#']`. |
| Grammar.OriginStaysSeed | tracery_markov_model.py:69-97 | In every compiled grammar, `origin` is exactly `['#start_boundary#']`. |
| Grammar.RuleKeys | tracery_markov_model.py:68-97 | The compiled grammar's rules are `origin` plus every key some line appended to. |
| Grammar.EntryKept | tracery_markov_model.py:83-97 | Whatever a line appends survives reduction under the same rule. |
| Grammar.ReferencesResolve | tracery_markov_model.py:81-97 | In the compiled grammar, every non-terminal option a line contributes is present under its rule and ends with a reference to a rule the grammar defines. |
| Grammar.StartsKept | tracery_markov_model.py:82-97 | Every context that begins a sentence in some line of the corpus (the first window, or a window after a whole `ENDINGS` code that is not itself a code) is among the options of `start_boundary` in the compiled grammar. |
| Grammar.CompileCorpus | tracery_markov_model.py:115-117 | Compilation fails, with the argument parser's message, exactly when `n < 2`. Otherwise it yields the compiled grammar. |
| Grammar.BuildRules | tracery_markov_model.py:71-86 | The loop over the lines builds the grammar that folding every line's appends into the seed yields. |
| Grammar.AddLine | tracery_markov_model.py:79-86 | The loop over one line's windows, plus the terminal append, makes exactly that line's appends, in order. |
| Scenarios.TokenizeIsSplit | tracery_markov_model.py:73-78 | The tokens of a line are the `split()` of its stripped, optionally lowercased, encoded text. |
| Scenarios.WordTokens | tracery_markov_model.py:73-78 | A line that is one plain word is that one token. A plain word is printable, without whitespace and without punctuation marks. |
| Scenarios.WordPeriodTokens | tracery_markov_model.py:73-78 | A plain word followed by a period is the word and `PUNC_PER`. |
| Scenarios.WordEllipsisTokens | tracery_markov_model.py:73-78 | A plain word without capitals followed by `...` is the word and `0PUNC_EL`, lowercased or not. The ellipsis is encoded before any single period. |
| Scenarios.Sentence | tracery_markov_model.py:76-78 | Two plain words with a space between them and a period after them are the two words and `PUNC_PER`. What follows must be the end of the line, or a space and then the rest, whose tokens come next. |
| Scenarios.TokenizeExample | tracery_markov_model.py:73-78 | `Hello world. Good morning.` without lowercasing is the tokens `Hello`, `world`, `PUNC_PER`, `Good`, `morning`, `PUNC_PER`, the line the extractor examples below start from. |
| Scenarios.MixedTokens | tracery_markov_model.py:73-78 | The corpus lines `xPUNC_PER` and `x. z` are the tokens `[xPUNC_PER]` and `[x, PUNC_PER, z]`. |
| Scenarios.MixedContexts | tracery_markov_model.py:84-86 | With `n = 3`, take a line that is the single word `a + c`, where `c` begins with a code, and a line whose first two tokens are `a` and `c`. The first line's terminal and the second line's first window are filed under the same key, `a + c`. A one-token context and a two-token context share a rule. |
| Scenarios.MixedContextsExample | tracery_markov_model.py:84-86 | The instance: the terminal of `[xPUNC_PER]` and the first window of `[x, PUNC_PER, z]` are both filed under `xPUNC_PER`. |
| Scenarios.CodeWordRoundTrip | tracery_markov_model.py:42-78 | Rendering tokens as terminal text and tokenising that text need not give the tokens back. The corpus word `xPUNC_PER` is one token, its terminal text is `x.`, and `x.` is the two tokens `x` and `PUNC_PER`. |
| Scenarios.PeriodsRoundTrip | tracery_markov_model.py:42-78 | The same holds with lowercasing. The tokens `a` and three `PUNC_PER` have the text `a...`, which is the two tokens `a` and `0PUNC_EL`. |
| Scenarios.LineKindsExample | tracery_markov_model.py:79-86 | For the tokens of `Hello world. Good morning.` and `n = 3`, the appends are: a start for window 0, the continuations of windows 0, 1 and 2, a start for window 3, the continuation of window 3, and the terminal, in that order. |
| Scenarios.LineStartsExample | tracery_markov_model.py:82-83 | In that line, exactly windows 0 and 3 begin a sentence. Window 3 follows the period code. |
| Scenarios.Window1 | tracery_markov_model.py:84 | The window `world PUNC_PER Good` files `world#PUNC_PER Good#` under `worldPUNC_PER`. No space is written before the code. |
| Scenarios.Window2 | tracery_markov_model.py:84 | The window `PUNC_PER Good morning` files `. #Good morning#` under `PUNC_PER Good`. The code in first position is decoded to its mark. |
| Scenarios.LineEnd | tracery_markov_model.py:85-86 | The line's terminal is `morning.` under the key `morningPUNC_PER`. |
| Scenarios.LineEntriesExample | tracery_markov_model.py:79-86 | The seven appends of that line, each with its key and its option text. |
| Scenarios.ReduceExample | tracery_markov_model.py:88-97 | For distinct `x`, `y` and `z`, the rule `[x, x, x, x, y, y, y, y, z, z]` reduces to `[x, x, y, y, z]`: the counts are 4, 4 and 2, and their gcd is 2. |

## Left out

- Reading the corpus file (lines 71-72): the corpus is a sequence of lines. Because the model strips each line first, a trailing newline makes no difference.
- Writing the output (lines 99-104): creating the `output` directory, naming the file and serialising JSON. The result is the grammar as a map. Key order in the JSON text is not modelled.
- The argument parser (lines 107-114, 117): only its refusal of `n < 2` (lines 115-116) is modelled, as `Grammar.CompileCorpus`.
- The `gcd` import fallback (lines 8-11): both imports compute the same gcd of non-negative integers, and `Gcd.Gcd` is defined directly.
- Float division: `Reduce.Expand` uses exact integer division for `int(counts[option] / counts_gcd)` (line 96). The gcd divides every count (`Reduce.FactorIsGcd`), so the quotient is exact for the counts a corpus can produce. Float rounding of counts above 2^53 is not modelled.
- Tokenizer.Lower: lowercases ASCII letters only, not the full Unicode case mapping of `str.lower`.
- Tokenizer.IsSpace: a fixed set of characters stands in for Python's `str.isspace`.
- Grammar.BuildRules: takes already-tokenised lines. `Grammar.Compile` composes it, functionally, with `Tokenizer.Tokenize`.
- Punctuation.Decode: walks the table in the insertion order of `PUNCTUATION` (lines 13-21), which is the iteration order of a `dict` from Python 3.7 on. Older interpreters iterate in an unspecified order. The order makes no difference to the result. The hypotheses of `Text.ReplaceEachIsScan` hold for the table in any order, so every order equals the same single-pass scan. That scan's map, `MapOf` of pairs with distinct codes, is the same for every order.
- Reduce.ReduceOptions: keeps options in first-occurrence order. That is the order of `for option in counts` (line 95) only because a `dict` keeps insertion order from Python 3.7 on. Older interpreters iterate in an unspecified order.
- Scenarios.CodeWordRoundTrip: no member promises that tokenising a rendered terminal text gives the tokens back, because the program does not keep that promise. Decoding turns a code inside a corpus word into its mark, and tokenising splits the mark off again.
- Scenarios.PeriodsRoundTrip: likewise with lowercasing. Three separate periods render as `...`, which tokenises as one ellipsis.
- Extract.LineReferencesResolve: proves only the trailing `#key#` reference of each option. A `#` inside a corpus token is copied into keys and options unescaped, so Tracery may read further references there. Those are not modelled.
- Render.SubstituteWordOriginRule: in a corpus that is not lowercased, the words `origin` and `WORD_ORIGIN` share one rule key (`Render.SubstituteCollides`). The model keeps that behaviour and does not promise distinct keys for distinct tokens.
- Scenarios.MixedContexts: no member promises that a rule key determines the length of its context, because the program does not keep that promise. A corpus word that contains code text renders the same key as the word and the code as two tokens. In a lowercased corpus no word can contain code text (`Tokenizer.LoweredHoldsNoCode`), so keys there are expected to keep context lengths apart. That is not proved.
