# Word counter: filter-chain counting, in Dafny

This project models the core of a small Rust word counter. A line of text is
split on whitespace (`str::split_whitespace`). Then the counter reports how
many of the resulting tokens every filter of an ordered chain accepts
(`WordCounter::count_words`). Two filters plug into the chain:

- `RegexWordFilter` accepts strings that match the anchored pattern `^[a-zA-Z]+$`.
- `StopWordFilter` rejects the strings in a fixed set.

The tests also define an always-true and an always-false filter.

Three modules, one per component:

- `tokenizer.dfy` (`Tokenizer`): `Tokenize` is the whitespace split as a pure
  recursive function. Its partners are:
  - the standard library's implementation, `split(char::is_whitespace)`
    followed by dropping empty pieces (`SplitOnWhitespace`, `NonEmpty`);
  - a content law: the tokens, concatenated, are the input with its
    whitespace removed;
  - an inverse: joining tokens with single spaces and splitting again gives
    them back.
- `word_filter.dfy` (`WordFilter`): the closed datatype
  `Filter = Shape | Stop(stopwords) | Const(verdict)` and `Accepts`.
  - The pattern `^[a-zA-Z]+$` is modelled as the three-state automaton a
    regex engine builds for it.
  - The automaton is proved to accept exactly the non-empty strings of ASCII
    letters.
- `word_counter.dfy` (`WordCounter`):
  - `AcceptsAll` is `Iterator::all` over the chain.
  - `CountAccepted` and `Count` are the filtered count.
  - `CountWords` is a loop-based method that mirrors `count_words`,
    including the short-circuit of `all`.
  - The lemmas cover bounds, edge cases, conjunction laws (order
    independence, monotonicity under appending) and the tests' scenarios.

Whitespace is Rust's `char::is_whitespace`, i.e. the Unicode `White_Space`
property: U+0009 to U+000D, U+0020, U+0085, U+00A0, U+1680, U+2000 to U+200A,
U+2028, U+2029, U+202F, U+205F and U+3000. `split_whitespace` splits on
this full Unicode set, not only on ASCII whitespace.

## Model

| member | source | states |
|---|---|---|
| Tokenizer.IsWhitespace | src/word_counter/mod.rs:22 | `char::is_whitespace`, the splitting predicate of `split_whitespace`: on ASCII it holds exactly for tab, LF, VT, FF, CR and space, and no code point above U+3000 is whitespace |
| Tokenizer.WordLength | src/word_counter/mod.rs:22 | the leading token is the maximal whitespace-free prefix: no whitespace before position n, and whitespace at n unless the input ends there |
| Tokenizer.Tokenize | src/word_counter/mod.rs:22 | every token `split_whitespace` yields is non-empty and holds no whitespace character |
| Tokenizer.SplitOnWhitespace | src/word_counter/mod.rs:22 | `split(char::is_whitespace)` always yields at least one piece, and no piece contains whitespace |
| Tokenizer.TokenizeIsSplitFiltered | src/word_counter/mod.rs:22 | the tokenizer equals the standard library's implementation of `split_whitespace`: split at every whitespace character, then drop the empty pieces |
| Tokenizer.TokensCoverNonWhitespace | src/word_counter/mod.rs:22 | the tokens laid end to end are exactly the input's non-whitespace characters, in order: nothing is lost or invented |
| Tokenizer.TokenizeEmptyIff | src/word_counter/mod.rs:22 | the input yields no token if and only if it is empty or all whitespace |
| Tokenizer.TokenCountBound | src/word_counter/mod.rs:22 | a line of length L yields at most (L + 1) / 2 tokens |
| Tokenizer.LeadingToken | src/word_counter/mod.rs:22 | a token followed by the end of input or by whitespace is split off unchanged, and splitting continues on the rest |
| Tokenizer.TokenizeJoin | src/word_counter/mod.rs:22 | joining any list of tokens with single spaces and splitting again gives back the same list |
| WordFilter.MatchesWordPattern | src/word_filter/mod.rs:10-18 | `WORD_REGEX.is_match` with the anchored pattern `^[a-zA-Z]+$` holds for a string if and only if it is non-empty and all of its characters are ASCII letters; a partial match is a reject |
| WordFilter.Accepts | src/word_filter/mod.rs:17-29 | `WordFilter::filter`: `RegexWordFilter` accepts w if and only if w has length at least 1 and every character is in a-z or A-Z; `StopWordFilter` accepts w if and only if w differs from every stopword; the test filters return their fixed verdict whatever the candidate |
| WordFilter.ShapeRejectsNonLetter | src/word_filter/mod.rs:11 | one non-letter anywhere in the string makes the filter reject it, so a partial match is not enough |
| WordFilter.ShapeFilterCases | src/word_filter/mod.rs:39-45 | "", " ", "\t" and "Hello1" are rejected; "hello", "HELLO" and "hEllO" are accepted |
| WordFilter.StopAcceptsIff | src/word_filter/mod.rs:26-29 | `StopWordFilter::filter` accepts w if and only if w differs from every configured stopword |
| WordFilter.EmptyStopAcceptsAll | src/word_filter/mod.rs:28 | with an empty stopword set, every string is accepted |
| WordFilter.StopMatchIsExact | src/word_filter/mod.rs:28 | membership is whole-string equality: a different case, a prefix, an extension or a superstring of a stopword is accepted |
| WordFilter.StopwordTestAsWritten | src/word_filter/mod.rs:56-64 | the test's filter holds the set {"asd"}, so it accepts both "word" and "stopword" |
| WordFilter.StopwordTestIntended | src/word_filter/mod.rs:56-57 | a filter built with the set {"stopword"} accepts "word" and rejects "stopword" |
| WordCounter.AcceptsAll | src/word_counter/mod.rs:25-26 | the chain accepts a token if and only if every filter in it does; the empty chain accepts everything |
| WordCounter.Count | src/word_counter/mod.rs:21-27 | the count `count_words` reports is at most the number of tokens and at most half the input length, rounded up, so the `usize` count cannot overflow |
| WordCounter.CountAccepted | src/word_counter/mod.rs:25-27 | the filtered count never exceeds the number of tokens |
| WordCounter.CountWords | src/word_counter/mod.rs:20-30 | the loop with a short-circuiting inner `all` returns the filtered count, which is at most the token count; it has no precondition and no error outcome |
| WordCounter.CountIsAcceptedPositions | src/word_counter/mod.rs:25-27 | the count equals the number of token positions whose token every filter accepts, so a token is counted iff all filters accept it |
| WordCounter.CountAcceptedMonotone | src/word_counter/mod.rs:25-27 | a chain that accepts at least the tokens another accepts counts at least as many |
| WordCounter.CountAcceptedSame | src/word_counter/mod.rs:25-27 | two chains that agree on every token give the same count |
| WordCounter.CountAcceptedAllIff | src/word_counter/mod.rs:25-27 | the count equals the number of tokens if and only if the chain accepts every token |
| WordCounter.CountAcceptedZeroIff | src/word_counter/mod.rs:25-27 | the count is 0 if and only if the chain accepts no token |
| WordCounter.EmptyChainCountsTokens | src/word_counter/mod.rs:25-27 | with an empty filter chain, the count equals the number of whitespace-delimited tokens |
| WordCounter.CountBounds | src/word_counter/mod.rs:21-27 | no chain counts more than the empty chain; the count is at most half the input length, rounded up |
| WordCounter.WhitespaceInputCountsZero | src/word_counter/mod.rs:21-27 | empty or all-whitespace input counts 0 under every chain |
| WordCounter.CountZeroIff | src/word_counter/mod.rs:21-27 | `count_words` reports 0 if and only if no token of the input passes the whole chain |
| WordCounter.CountAllIff | src/word_counter/mod.rs:21-27 | `count_words` reports the number of tokens if and only if every token passes the whole chain |
| WordCounter.RejectingFilterCountsZero | src/word_counter/mod.rs:25-27 | if one filter of the chain rejects every token of the input, the count is 0 |
| WordCounter.AcceptsAllAppend | src/word_counter/mod.rs:25-26 | the concatenated chain fs + gs accepts a token if and only if both fs and gs accept it |
| WordCounter.ChainOrderIrrelevant | src/word_counter/mod.rs:25-26 | two chains with the same filters give the same count, whatever the order or repetition |
| WordCounter.ChainPermutation | src/word_counter/mod.rs:25-26 | permuting the filter chain does not change the count |
| WordCounter.AppendNeverIncreases | src/word_counter/mod.rs:25-26 | appending filters to a chain never increases the count, and neither does prepending them |
| WordCounter.AlwaysTrueIsNeutral | src/word_counter/mod.rs:37-43 | appending an always-true filter to a chain leaves the count unchanged |
| WordCounter.CounterTestCases | src/word_counter/mod.rs:53-81 | "word1 word2" counts 2 under two always-true filters and 0 under always-true followed by always-false |
| WordCounter.ShapeWordIsOneToken | src/word_counter/mod.rs:22-26 | a string the shape filter accepts contains no whitespace and tokenizes to itself alone |
| WordCounter.BlankScenarios | src/word_counter/mod.rs:21-27 | "" and " " count 0 under any chain |
| WordCounter.HelloScenario | src/word_counter/mod.rs:20-30 | "Hello" counts 1 under the shape filter |
| WordCounter.PartialMatchScenario | src/word_counter/mod.rs:20-30 | "Hello1 World" counts 1 under the shape filter: only "World" qualifies |
| WordCounter.StopwordScenario | src/word_counter/mod.rs:20-30 | "word stopword" counts 1 under a stopword filter holding {"stopword"} |

## Left out

- `src/main.rs`: it only reads a line from stdin and prints the count. It also does not fit the library: it calls `WordCounter::new()` with no arguments, while the constructor takes a filter list, and it never declares `mod word_filter`.
- `WordCounter::new` and the `WordCounter` struct: the constructor only stores the chain, so the chain is a parameter of `Count` and `CountWords`.
- The regex engine, `lazy_static` and `Regex::new(...).unwrap()`: the compiled pattern is replaced by the equivalent three-state automaton. Pattern compilation cannot fail for this constant pattern, and it is not modelled.
- `Box<dyn WordFilter>` dynamic dispatch: the filters form the closed datatype `Filter`. The two test-only filters are `Const(true)` and `Const(false)`.
- The `'a` lifetime of the borrowed stopwords and `HashSet` hashing: the stopword set is an owned Dafny `set<string>`.
- The `anyhow::Result` error channel: `count_words` always returns `Ok`, so `CountWords` returns the `WordCount` record directly.
- `usize`: the count is a `nat`. `CountBounds` shows it is at most half the input length, rounded up, so it cannot overflow.
- Strings are sequences of Unicode scalar values (`char`). The UTF-8 byte encoding of Rust's `&str` is not modelled; `split_whitespace` works on characters anyway.
- Loading stopwords from a file: that code is not part of this model.

## Findings

| source | as written | input that shows it | evidently intended | confidence | as-written member | corrected member |
|---|---|---|---|---|---|---|
| src/word_filter/mod.rs:57-61 | the `stopwords_word_filter` test builds its filter from the set {"asd"} and ignores its `stopword` argument | the case named "stopword": input "stopword" with `stopword` = "stopword"; the filter accepts it, but the test expects `false` | build the set from the `stopword` argument, so that "stopword" is rejected and "word" accepted | high; not executed | WordFilter.StopwordTestAsWritten | WordFilter.StopwordTestIntended |

The filter itself at line 28 is correct: the model's `Stop` filter rejects a token if and only if it is in the set. Only the test fixture is wrong.
