# LineWord wordlist generator: a Dafny model

`lineword_PLUS.py` builds password-candidate wordlists. It takes base
words and lists of numbers, symbols, separators, prefixes, suffixes and
year tokens, and yields every combination a mode allows whose length lies
in `[min_len, max_len]`. Those candidates are written to a file, with
repeats skipped and a limit applied on request. This project models the
generating and writing logic and proves what it promises.

- `Text`: ASCII versions of `lower`, `upper`, `capitalize`, `strip` and `str(int)`.
- `Seqs`: first-occurrence deduplication (`dict.fromkeys` and the `seen`-set loops), subsequences, and Python's `xs[:n]`.
- `Leet`: `generate_leet_variants`. Each character of the lower-cased word gets a pool of substitutes. The Cartesian product of the pools is cut after `max_variants` strings.
- `CaseForms`: `case_variants` and `re_split`.
- `Dates`: `build_dates`, and how `main` picks its year tokens.
- `Combinations`: spec functions for what `generate_combinations` yields in basic and full mode, and the membership theorem.
- `Generate`: the nested generator loops as methods, each proved to yield what `Combinations` describes.
- `Bounds`: how many candidates the generator can yield.
- `Estimate`: `estimate_count`, and the proof that it bounds the output once separators and variants are accounted for.
- `Sink`: `write_output`, and the buffered collect/dedup/shuffle/truncate path of `main`.

Each variant set is a Python set, iterated in an order the language leaves
open. `GenerateCombinations` therefore returns the order it used for each
word (`orders`), and every theorem holds for any such order.

The lazy generator is modelled as the sequence of its yields, in yield
order. A file is modelled as the sequence of lines written to it.

For `build_dates(2020, 2021)` the code yields eight tokens, ending in
`2021`, `012021` and `202101`; only the second year's `0101` and `1010` are
dropped as repeats (`Dates.BuildDatesExample`).

A `limit` is an integer, and Python treats any non-zero one as true, so a
negative limit behaves as follows:
- `write_output` stops after its first line;
- the buffered path stops collecting after one candidate;
- `collected[:limit]` then drops that candidate, so nothing is written.

The model keeps this behaviour (`Sink.WriteCap`, `Sink.CollectCap`, `Sink.BufferedFacts`).

## Model

| member | source | states |
|---|---|---|
| Text.Lower | lineword_PLUS.py:65 | `word.lower()`: same length, each ASCII upper-case letter mapped to its lower-case letter, other characters unchanged |
| Text.Upper | lineword_PLUS.py:120 | `base.upper()`: same length, each ASCII lower-case letter mapped to upper case, other characters unchanged |
| Text.Capitalize | lineword_PLUS.py:120 | `base.capitalize()`: same length, first character upper-cased, every other character lower-cased |
| Text.Strip | lineword_PLUS.py:116 | `w.strip()`: no longer than the input, and the result neither starts nor ends with white space; that only the surrounding white space is removed is stated by `Text.TrimLeftFacts` and `Text.TrimRightFacts` |
| Text.TrimLeftFacts | lineword_PLUS.py:116 | the left trim is a suffix of the input, drops only white space, and stops at the first other character |
| Text.TrimRightFacts | lineword_PLUS.py:116 | the right trim is a prefix of the input, drops only white space, and stops at the last other character |
| Text.StripEmptyIff | lineword_PLUS.py:116 | a word strips to the empty string exactly when all its characters are white space |
| Text.StripIdempotent | lineword_PLUS.py:116 | stripping twice is the same as stripping once |
| Text.IntToString | lineword_PLUS.py:88 | `str(y)`: non-empty, with a leading `-` exactly for negative years |
| Seqs.Dedup | lineword_PLUS.py:96-102 | first-occurrence deduplication: no repeats, every input element kept, nothing new added, never longer |
| Seqs.DedupFirstOccurrenceOrder | lineword_PLUS.py:96-102 | kept elements appear in the order of their first occurrences in the input |
| Seqs.DedupIsSubseq | lineword_PLUS.py:116 | the deduplicated list is an order-preserving subsequence of its input |
| Seqs.DedupIdempotent | lineword_PLUS.py:246-247 | deduplicating twice is the same as once |
| Seqs.DedupPrefix | lineword_PLUS.py:244-247 | deduplicating a prefix gives a prefix of deduplicating the whole |
| Seqs.NoDupPermutation | lineword_PLUS.py:246-249 | reordering a list without repeats leaves it without repeats |
| Seqs.PyPrefix | lineword_PLUS.py:250-251 | `s[:n]`: a prefix of `s`, of length `min(n, len(s))` for `n >= 0` and `max(0, len(s) + n)` for negative `n` |
| Leet.GenerateLeetVariants | lineword_PLUS.py:64-75 | the pool loop and the product loop with its early `return` yield exactly the first `max(1, max_variants)` strings of the product of the pools |
| Leet.ProductMember | lineword_PLUS.py:71 | a string is in the product exactly when it has one character per pool and character `i` is drawn from pool `i` |
| Leet.Product | lineword_PLUS.py:71 | `itertools.product(*pools)` joined: every string has one character per pool; its members and count are `Leet.ProductMember` and `Leet.ProductLength` |
| Leet.ProductLength | lineword_PLUS.py:71 | the product has as many strings as the pool sizes multiplied together |
| Leet.LeetVariantsCount | lineword_PLUS.py:70-75 | the output is a prefix of the product, of length `min(product size, max(1, max_variants))`, so at most `max_variants` for `max_variants >= 1` |
| Leet.LeetVariantsShape | lineword_PLUS.py:65-69 | every string yielded has the word's length, and its character `i` comes from `leet_map.get(lower(word[i]), [lower(word[i])])` |
| Leet.DefaultPoolStartsWithSelf | lineword_PLUS.py:20 | every pool of the default leet map is non-empty and starts with the character itself |
| Leet.LeetFirstIsLower | lineword_PLUS.py:20 | under the default map the first string yielded is `word.lower()` |
| CaseForms.SkipDelimiters | lineword_PLUS.py:86 | the result is no longer than the input, does not start with a delimiter, and is shorter when the input starts with one; that it drops exactly the leading delimiter run is `CaseForms.SkippedRun` and `CaseForms.LeadingRun` |
| CaseForms.LeadingRun | lineword_PLUS.py:86 | at a delimiter, the part `SkipDelimiters` drops is a non-empty run of delimiters and, followed by what it keeps, gives back the input |
| CaseForms.SkippedRun | lineword_PLUS.py:86 | what `SkipDelimiters` drops is a run of `-`, `.`, `_` and white space, so it removes the leading delimiter run and only that run |
| CaseForms.Split | lineword_PLUS.py:84-86 | `re_split(s)`: at least one part, and the parts joined give `s` without its delimiters; the split is pinned down by `CaseForms.SplitParts` and `CaseForms.SplitUnique` |
| CaseForms.SplitParts | lineword_PLUS.py:84-86 | `re.split(r"[\-\._\s]+", s)`: at least one part; the parts joined give `s` without its delimiters; no part holds a delimiter; only the first and last part can be empty; and the parts, separated by the runs of delimiters of `s` (`Runs(s)`, each non-empty), give back `s` |
| CaseForms.SplitUnique | lineword_PLUS.py:84-86 | any delimiter-free parts with non-empty inner parts that give back `s` when separated by non-empty delimiter runs are exactly `re_split(s)`, so the split cuts at each maximal delimiter run and nowhere else |
| CaseForms.NonEmpty | lineword_PLUS.py:79 | `[p for p in parts if p]` keeps only non-empty parts and keeps their joined text |
| CaseForms.NonEmptyLength | lineword_PLUS.py:79 | the filter keeps one element per non-empty part |
| CaseForms.NonEmptyAt | lineword_PLUS.py:79 | a non-empty part `i` is element number "non-empty parts before `i`" of the filter, so the filter is the non-empty parts in their order |
| CaseForms.CamelJoin | lineword_PLUS.py:81 | the camel join has the length of the parts joined |
| CaseForms.CamelJoinAt | lineword_PLUS.py:81 | each part appears capitalised in the camel join, at the offset where it starts in the parts joined |
| CaseForms.ConcatAtAligned | lineword_PLUS.py:79-81 | where a part starts in the parts joined, any list of strings of the same lengths (such as the capitalised parts) has its own element at the same place |
| CaseForms.CamelJoinLower | lineword_PLUS.py:81 | up to case, the camel join equals the parts joined |
| CaseForms.CamelShape | lineword_PLUS.py:78-82 | when added, the camel form is non-empty, no longer than the word, and equals the word without its delimiters up to case |
| CaseForms.CaseVariants | lineword_PLUS.py:76-83 | the variants include the word and its lower, upper and capitalised forms, include the camel form when the word holds `-` or `_` and has a non-empty part, contain nothing else, and number at most five (four without the camel form) |
| CaseForms.CaseVariantLength | lineword_PLUS.py:76-83 | every case variant has the word's length, except the camel form, which is only added when the word holds `-` or `_` |
| Dates.BuildDates | lineword_PLUS.py:87-95 | the first loop appends the five tokens of each year of `start..end` in order, and the result is their first-occurrence deduplication |
| Dates.KeepFirstOccurrences | lineword_PLUS.py:96-102 | the `seen`-set loop returns the first-occurrence deduplication of `dates` |
| Dates.RawDatesMember | lineword_PLUS.py:88-95 | a token is appended exactly when it is one of the five tokens of some year in the range |
| Dates.BuildDatesContents | lineword_PLUS.py:87-102 | the result has no repeats; its members are exactly `y`, `01y`, `y01` for every year in range, plus `0101` and `1010` when the range is non-empty; `start > end` gives nothing |
| Dates.BuildDatesExample | lineword_PLUS.py:87-102 | `build_dates(2020, 2021)` yields eight tokens, the second year's `0101` and `1010` dropped as repeats |
| Dates.DefaultYearTokens | lineword_PLUS.py:205-207 | the default year tokens are five: `str(cy)`, `01` followed by `str(cy)`, `0101`, `1010` and `2020` |
| Dates.SelectYearTokens | lineword_PLUS.py:202-207 | with `--years`, `build_dates(start, end)`; otherwise the defaults for the current year |
| Combinations.ModeOf | lineword_PLUS.py:129 | `mode == "basic"` selects basic mode and every other string full mode |
| Combinations.StripAll | lineword_PLUS.py:116 | the kept words are non-empty and already stripped |
| Combinations.StripAllMember | lineword_PLUS.py:116 | a word is kept exactly when it is non-empty and is the stripped form of some input word |
| Combinations.NormalizeMember | lineword_PLUS.py:116 | the words the engine uses are exactly the non-empty stripped forms of the base words |
| Combinations.NormalizeBaseWords | lineword_PLUS.py:116 | the normalised base words have no repeats and each is non-empty and already stripped; which words they are is `Combinations.NormalizeMember`, empty exactly when all are blank is `Combinations.NormalizeShape` |
| Combinations.NormalizeShape | lineword_PLUS.py:116-118 | normalised base words have no repeats, are non-empty and stripped, and none remain exactly when every input word is blank |
| Combinations.NormalizeIdempotent | lineword_PLUS.py:116 | normalising the normalised list changes nothing |
| Combinations.NormalizeIgnoresRepeat | lineword_PLUS.py:116 | appending a blank word, or a padded copy of a word already kept, leaves the words used unchanged |
| Combinations.BlankWordsNoOutput | lineword_PLUS.py:116-118 | when every base word is blank after stripping, nothing is yielded |
| Combinations.LeetFormsMember | lineword_PLUS.py:122-124 | with leet on, the set gains exactly each expander string and its capitalised form |
| Combinations.VariantLength | lineword_PLUS.py:120-124 | every variant has the base word's length |
| Combinations.LeetVariantsIncluded | lineword_PLUS.py:121-124 | with leet on, every string from the expander and its capitalised form are variants |
| Combinations.BasicOutMember | lineword_PLUS.py:129-140 | basic mode yields, for a core, exactly the fitting strings among the core, `core+sep+num` for non-empty `num`, and `core+dt`; never a symbol |
| Combinations.FullNumsMember | lineword_PLUS.py:145-153 | after one separator, full mode yields exactly the fitting `core+sep+num` (or `core`), and for each non-empty symbol `core+sym+sep+num` (or `core+sym` when `num` is empty) |
| Combinations.FullYearsMember | lineword_PLUS.py:154-162 | full mode yields exactly the fitting `core+dt`, and `core+dt+sym` for each non-empty symbol |
| Combinations.FullOutMember | lineword_PLUS.py:141-162 | full mode yields, for a core, exactly the fitting strings of the basic tails plus `core+sym+sep+num`, `core+sym` and `core+dt+sym` with non-empty `sym` |
| Combinations.CoreOutMember | lineword_PLUS.py:128-162 | what one core yields is exactly the fitting strings of the form the mode allows |
| Combinations.WordsCoresMember | lineword_PLUS.py:119-128 | the cores are exactly `pre+v+suf` for each word's variant, each prefix and each suffix |
| Combinations.WordsOutMember | lineword_PLUS.py:119-162 | a string is yielded exactly when some core yields it |
| Combinations.GenerateMember | lineword_PLUS.py:116-162 | a string is yielded exactly when it fits `[min_len, max_len]` and is `pre+v+suf` plus a tail of the mode, for a variant `v` of a normalised word, whatever order the variant sets are listed in |
| Combinations.OutputFits | lineword_PLUS.py:130-162 | every yielded string has a length in `[min_len, max_len]`, in both modes |
| Combinations.EmptyWhenBoundsCross | lineword_PLUS.py:130-162 | with `min_len > max_len` nothing is yielded |
| Combinations.RepeatedCore | lineword_PLUS.py:132-136 | the engine yields repeats: with the number `""` and two separators, basic mode yields the bare core three times |
| Generate.WordVariants | lineword_PLUS.py:120-124 | the variant set built is the four case forms plus, with leet on, the expander strings and their capitalised forms |
| Generate.ListOf | lineword_PLUS.py:125 | `list(variants)` lists every member exactly once |
| Generate.EmitBasicSeparators | lineword_PLUS.py:133-136 | the separator loop yields `BasicSeps` |
| Generate.EmitBasicNumbers | lineword_PLUS.py:132-136 | the number loop yields `BasicNums` |
| Generate.EmitBasicYears | lineword_PLUS.py:137-140 | the year loop yields `BasicYears` |
| Generate.EmitBasic | lineword_PLUS.py:129-140 | basic mode yields `BasicOut` for the core |
| Generate.EmitNumSymbols | lineword_PLUS.py:149-153 | the symbol loop after a number yields `NumSyms` |
| Generate.EmitFullNumbers | lineword_PLUS.py:145-153 | the number loop after a separator yields `FullNums` |
| Generate.EmitFullSeparators | lineword_PLUS.py:144-153 | the separator loop yields `FullSeps` |
| Generate.EmitYearSymbols | lineword_PLUS.py:158-162 | the symbol loop after a year token yields `YearSyms` |
| Generate.EmitFullYears | lineword_PLUS.py:154-162 | the year loop yields `FullYears` |
| Generate.EmitFull | lineword_PLUS.py:141-162 | full mode yields `FullOut` for the core |
| Generate.EmitCore | lineword_PLUS.py:128-162 | one core yields `CoreOut` |
| Generate.EmitSuffixes | lineword_PLUS.py:127-162 | the suffix loop yields what its cores yield, in order |
| Generate.EmitVariant | lineword_PLUS.py:126-162 | the prefix loop yields what its cores yield, in order |
| Generate.EmitVariants | lineword_PLUS.py:125-162 | the variant loop yields what its cores yield, in order |
| Generate.ExpandWord | lineword_PLUS.py:120-162 | one base word lists its full variant set in some order and yields what the cores of that order yield |
| Generate.GenerateCombinations | lineword_PLUS.py:103-162 | the whole generator: the orders used enumerate each normalised word's variant set, and the output is `WordsOut` of those orders, to which the theorems above apply |
| Bounds.CoreOutLength | lineword_PLUS.py:129-162 | a core yields at most `1 + n*p + d` strings in basic mode and `1 + p*n*(1+s) + d*(1+s)` in full mode |
| Bounds.VariantCoresLength | lineword_PLUS.py:125-128 | each variant gives one core per prefix and suffix |
| Bounds.VariantsSize | lineword_PLUS.py:120-124 | a word has at most 4 variants, or 68 with leet (four case forms plus two per expander string, at most 32 strings) |
| Bounds.EnumeratesSize | lineword_PLUS.py:125 | `list(variants)` has one entry per member |
| Bounds.GenerateLength | lineword_PLUS.py:119-162 | the generator yields at most words × variants × prefixes × suffixes × the per-core bound |
| Estimate.EstimateCount | lineword_PLUS.py:182-193 | the estimate is never negative, and is zero exactly when there are no base words |
| Estimate.FullExceedsBasic | lineword_PLUS.py:190-193 | full mode estimates exactly `bw*p*suf*s*(n+y)` more than basic mode, so never fewer, and strictly more for a non-empty word list |
| Estimate.EstimateAdditive | lineword_PLUS.py:184-193 | the estimate for two word lists joined is the sum of their estimates |
| Estimate.PerCoreWithinEstimate | lineword_PLUS.py:129-162 | a core yields at most the per-core factor times the number of separators (1 when there are none) |
| Estimate.EstimateBoundsOutput | lineword_PLUS.py:182-193 | the output is at most the estimate × separators × at most 4 (or 68) variants per word |
| Sink.WriteCap | lineword_PLUS.py:179-180 | with a limit set, at most `limit` lines are written for a positive limit and one for a negative one |
| Sink.ConsideredIsDedup | lineword_PLUS.py:170-174 | the lines the `seen` loop lets through are exactly the first occurrences in order (`Dedup`, the same as `dict.fromkeys`), and every line without `unique` |
| Sink.WriteOutput | lineword_PLUS.py:163-181 | the loop with `seen`, `continue` and `break` writes `Written(lines, unique, limit)` and returns its length as the count |
| Sink.WrittenCount | lineword_PLUS.py:170-181 | the count is `min(considered, limit)` for a positive limit and `min(considered, 1)` for a negative one; with no limit every considered line is written |
| Sink.WrittenShape | lineword_PLUS.py:170-178 | what is written is a prefix of the input, or with `unique` a prefix of its first occurrences with no repeats; always an order-preserving subsequence |
| Sink.WrittenUniqueAll | lineword_PLUS.py:171-174 | with `unique` and no limit, a line is written exactly when it occurs in the input |
| Sink.WrittenMonotone | lineword_PLUS.py:179-180 | raising a positive limit only appends lines |
| Sink.CollectCap | lineword_PLUS.py:242-245 | collection stops at `2*limit` for a positive limit and after one candidate for a negative one |
| Sink.CollectBuffered | lineword_PLUS.py:237-251 | the buffered path collects, deduplicates, reorders (any permutation when shuffling), truncates with `[:limit]` and writes the result |
| Sink.Output | lineword_PLUS.py:234-258 | the buffered path when shuffling or deduplicating, otherwise `write_output` on the stream with `unique=False` and the limit |
| Sink.CollectedShape | lineword_PLUS.py:240-245 | the collected candidates are a prefix of the stream, of length `min(len, 2*limit)` for a positive limit |
| Sink.BufferedFacts | lineword_PLUS.py:242-251 | the buffered output has at most `limit` lines for a positive limit and none for a negative one, holds only generated lines, and with `unique` has no repeats, whatever order the shuffle picked |
| Sink.BufferedPrefixOfStreaming | lineword_PLUS.py:242-251 | without a shuffle, the unique buffered output is a prefix of what streaming with `unique` and the same limit writes, for every limit |
| Sink.BufferedIsSubseq | lineword_PLUS.py:240-251 | without a shuffle, the buffered output keeps the generator's order: an order-preserving subsequence of its output, with or without `unique`, for every limit |
| Sink.BufferedFallsShort | lineword_PLUS.py:242-245 | the unique buffered output can be shorter than the limit although enough distinct candidates exist, since only `2*limit` are collected before deduplication |

## Left out

- File output, `gzip`, encodings and `errors="ignore"`: a file is modelled as the list of lines written to it.
- The progress messages every 1000 lines, the `quiet` flag, `tqdm` and the console prints of `main`: display only.
- `parse_args` and `read_base_words`: argument parsing and input. Base words and token lists are parameters.
- The default token lists other than the leet map (`DEFAULT_NUMBERS`, `DEFAULT_SYMBOLS`, `DEFAULT_SEPARATORS`, `DEFAULT_BASE_WORDS`): these are argument defaults, and the model takes the lists as parameters.
- `datetime.now().year`: the current year is a parameter of `Dates.SelectYearTokens`.
- Unicode case mapping and white space: `lower`, `upper`, `capitalize`, `strip` and the regex `\s` are modelled on ASCII only; other characters are left unchanged.
- Laziness and memory use of the generators: the model works on the whole sequence of yields.
- The iteration order of the variant set: left open as any enumeration, returned as `orders`.
- `random.shuffle`: modelled as an arbitrary permutation; no distribution is modelled.
- `Text.IntToString`: states only shape facts (non-empty, sign) and no round trip through parsing, because the source never parses a year back.
- `Leet.LeetVariantsShape`: substitutes are single characters, as every entry of `DEFAULT_LEET_MAP` (line 20) is, and that map is the only one passed (line 122); the source joins substitutes of any length with `"".join`, and multi-character substitutes are not modelled, so the same-length result depends on the map.
- `CaseForms.CaseVariants`: the list order `list(variants)` returns is not modelled, only the set, because it is a Python set's order.
- `Estimate.EstimateCount`: takes the mode already parsed by `Combinations.ModeOf`, i.e. `mode == "basic"` or not.
