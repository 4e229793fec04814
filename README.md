# Addition-curriculum data pipeline and chat-template masking, in Dafny

This project models the data side of a small experiment that teaches a
language model to add. The model covers three parts of the repository:

- The character tokenizer (`Tokenizer`). It assigns one id to each distinct
  corpus character, in sorted order, and puts the pad symbol `□` last. It
  also builds the fixed-width (token ids, mask, targets) triple used for
  next-token training (`make_causal_data`).
- The problem generators. A sampler draws distinct `n`-digit operands
  (`get_unique_randints_from_n_digit`). The generator `足し算の文字列生成`
  writes every sampled pair in both orders, one equation `a+b=<c>` per
  line. The drill `足し算ドリルを生成` writes every `i+j` with
  `0 <= i, j < limit`.
- The curriculum. `make_causal_text` turns one equation into the texts that
  reveal its answer one character at a time, and the drill dataset
  (`足し算ドリル.__init__`) flattens a whole drill file into those texts.

It also models the two chat-format steps of the English-to-Spanish
fine-tuning script:

- `add_special_tokens` puts EOS before every `### Human:` turn and BOS
  after every `### Assistant:` turn. It then makes sure the text ends with
  EOS and removes every leading EOS.
- `create_special_mask` masks the labels of the human turns with -100. The
  mask runs up to and including BOS. The labels of the assistant turns are
  kept, up to and including EOS.

The modules follow the program:

- `Wrappers`: `Option` and `Result`.
- `Strings`: the Python `str` operations used (`index`, `startswith`,
  `endswith`, `split`, `join`, `replace`).
- `Decimal`: `f"{n}"` and its inverse.
- `CharTokenizer`: the `Tokenizer`.
- `DigitSampler`: the operand sampler.
- `AdditionText`: the line format, the generator and the drill.
- `Curriculum`: `make_causal_text` and the drill dataset.
- `ChatTemplate`: the two chat-format steps.

Loops in the source are methods with loop invariants. Each is proved
against a function that states what it computes. The label masking works
in place on an `array<int>`, as the source updates its label list in
place. Randomness is a nondeterministic choice (`:|`) among the values
`random.randint` could return. Files are replaced by the text that would
be written to them.

Where the specification and the code differ, the model follows the code:

- The drill file holds `<` and `>` around the answer, like the generated
  files (`data_make.py:258`).
- `make_causal_data` drops only the last id. The mask is true on
  `[0, n-1)` and the single target sits at `n-1`, not `n-2`
  (`data_make.py:39-47`).
- `make_causal_text` uses the first `>` anywhere in the text, not the first
  one after `<` (`data_make.py:282`). When `>` comes first, the answer part
  is empty, as Python's slicing gives.
- The docstring of `make_causal_text` indexes its example at 1 and 2. The
  code and the assertions below it give indexes 0 and 1 (`data_make.py:296-300`),
  and `Curriculum.CausalTextExample` proves the latter.

## Model

| member | source | states |
|---|---|---|
| Strings.IndexOf | projects/trainAdd/data_proc/data_make.py:281-282 | `str.index`: None exactly when the character is absent; otherwise the first position holding it |
| Strings.JoinSplit | projects/trainAdd/data_proc/data_make.py:306 | joining the pieces of `split(sep)` with `sep` gives the text back |
| Strings.ReplaceIsJoinOfSplit | src/easy_ds_EN_to_SP.py:31-37 | `s.replace(p, r)` equals `r.join(s.split(p))` |
| Strings.SplitUnlines | projects/trainAdd/data_proc/data_make.py:305-306 | splitting newline-terminated lines at `"\n"` gives the lines back plus one empty piece |
| Decimal.NatToString | projects/trainAdd/data_proc/data_make.py:108-109 | `f"{n}"` is non-empty, all digits, and has no leading zero |
| Decimal.ParsePrinted | projects/trainAdd/data_proc/data_make.py:108-109 | reading printed decimal text gives the number back |
| Decimal.PrintParsed | projects/trainAdd/data_proc/data_make.py:108-109 | printing the number a decimal text denotes gives the same text |
| Decimal.PrintInjective | projects/trainAdd/data_proc/data_make.py:108-109 | distinct numbers print differently |
| CharTokenizer.SortedChars | projects/trainAdd/data_proc/data_make.py:21 | `sorted(list(set(text)))`: strictly increasing, holding exactly the characters of the text |
| CharTokenizer.SortedUnique | projects/trainAdd/data_proc/data_make.py:21 | two strictly sorted sequences with the same characters are equal, so the vocabulary depends only on the character set |
| CharTokenizer.DistinctCount | projects/trainAdd/data_proc/data_make.py:26 | a strictly sorted sequence is as long as its set |
| CharTokenizer.IdMaps | projects/trainAdd/data_proc/data_make.py:22-28 | ids `0..k-1` name the sorted characters, the pad symbol gets id `k`, and `str_to_int` and `int_to_str` are inverse to each other |
| CharTokenizer.StrToIntEntries | projects/trainAdd/data_proc/data_make.py:22-27 | `str_to_int` has exactly the characters and the pad symbol as keys, with ids by position and `k` for the pad symbol |
| CharTokenizer.IntToStrEntries | projects/trainAdd/data_proc/data_make.py:23-28 | `int_to_str` has exactly the keys `0..k`, mapping each position to its character and `k` to the pad symbol |
| CharTokenizer.VocabularyIds | projects/trainAdd/data_proc/data_make.py:20-29 | for a corpus without the pad symbol: `vocab_size` is the number of distinct characters plus one, and the ids and both maps are as above |
| CharTokenizer.Encode | projects/trainAdd/data_proc/data_make.py:31-33 | succeeds exactly when every character has an id; then one id per character; otherwise a KeyError naming an unknown character of the input |
| CharTokenizer.Decode | projects/trainAdd/data_proc/data_make.py:51-53 | succeeds exactly when every id is known; then one character per id; otherwise a KeyError naming an unknown id of the input |
| CharTokenizer.RoundTrip | projects/trainAdd/data_proc/data_make.py:31-53 | encoding succeeds exactly on texts over the corpus characters and the pad symbol, and decoding then gives the text back |
| CharTokenizer.DecodeRange | projects/trainAdd/data_proc/data_make.py:51-53 | decoding succeeds exactly when every id lies in `0 .. vocab_size-1` |
| CharTokenizer.MakeCausalData | projects/trainAdd/data_proc/data_make.py:35-49 | fails (IndexError) exactly unless `1 <= n <= seq_len`; otherwise the first `n-1` ids are followed by pad ids, the mask is true exactly below `n-1`, and the only non-ignored target is the last id, at `n-1`; all three have width `seq_len` |
| DigitSampler.RangeSize | projects/trainAdd/data_proc/data_make.py:72-73 | `randint(start, stop)` can return `9 * 10^(n-1)` values |
| DigitSampler.TruncDivBounds | projects/trainAdd/data_proc/data_make.py:76 | `int(x / d)` rounds toward zero: down for a non-negative numerator, up for a negative one |
| DigitSampler.ScaledCount | projects/trainAdd/data_proc/data_make.py:76 | `int(w * rate)` for a rate of at most 1 is at most `w`, and exactly `w` for a rate of 1 |
| DigitSampler.AtMostOneLeavesOut | projects/trainAdd/data_proc/data_make.py:72-76 | with a rate of at most 1, the loop bound is below the number of values in the range, so the loop ends |
| DigitSampler.MissingValue | projects/trainAdd/data_proc/data_make.py:76-78 | fewer distinct values than the range holds leave some value of the range undrawn |
| DigitSampler.FullSampleCoversRange | projects/trainAdd/data_proc/data_make.py:76-80 | as many distinct in-range values as the range holds cover every value of it |
| DigitSampler.SampleDistinct | projects/trainAdd/data_proc/data_make.py:76-78 | the sampling loop returns exactly `max(0, count)` distinct values, all in `[start, stop]` |
| DigitSampler.GetUniqueRandints | projects/trainAdd/data_proc/data_make.py:69-80 | distinct `n`-digit values, exactly `max(0, int((stop-start)*rate))` of them; with a rate of at most 1 some value of the range is always left out |
| DigitSampler.OneDigitFullRateDrawsEight | projects/trainAdd/data_proc/data_make.py:72-76 | for one digit at rate 1.0, the range 1..9 holds 9 values but the loop draws 8 |
| DigitSampler.GetUniqueRandintsFullRange | projects/trainAdd/data_proc/data_make.py:136 | the sampler with the count over the whole range: it returns `int(rate * range size)` distinct values, and all of them at rate 1 |
| AdditionText.RenderAppend | projects/trainAdd/data_proc/data_make.py:105-115 | the text of two lists of equations is the text of the first followed by that of the second |
| AdditionText.RenderSnoc | projects/trainAdd/data_proc/data_make.py:110 | writing one more equation appends its line `a+b=<c>` and a newline |
| AdditionText.LineHasNoNewline | projects/trainAdd/data_proc/data_make.py:108-110 | an equation line holds no newline |
| AdditionText.SplitRender | projects/trainAdd/data_proc/data_make.py:110 | splitting written equations at newlines gives their lines in order, then an empty piece |
| AdditionText.ParseLine | projects/trainAdd/data_proc/data_make.py:108-110 | the line written for `a+b` reads back as `(a, b, a+b)`: the answer is the sum |
| AdditionText.CommutedPairsAt | projects/trainAdd/data_proc/data_make.py:106-115 | the loops produce `2*|s1|*|s2|` pairs; for the `k`-th value of `s1` and the `m`-th of `s2`, the pair `(s1[k], s2[m])` sits at `2*(k*|s2|+m)`, directly followed by its swap |
| AdditionText.AdditionStrings | projects/trainAdd/data_proc/data_make.py:100-116 | ValueError exactly when `|s1|*|s2| > 10000`; otherwise the text of all pairs in loop order, each followed by its swap |
| AdditionText.GeneratedLines | projects/trainAdd/data_proc/data_make.py:105-116 | the generated text splits into `2*|s1|*|s2|` lines and an empty tail; the lines at `2*(k*|s2|+m)` and the one after it are `s1[k]+s2[m]=<..>` and `s2[m]+s1[k]=<..>` |
| AdditionText.GeneratedCell | projects/trainAdd/data_proc/data_make.py:106-115 | one `(k, m)` cell of GeneratedLines |
| AdditionText.RenderedLinesParse | projects/trainAdd/data_proc/data_make.py:105-116 | every line of written equations parses back to its operands and their sum |
| AdditionText.AdditionProblems | projects/trainAdd/data_proc/data_make.py:91-116 | fails exactly when the product of the two sample counts exceeds 10000; otherwise the text is that of two distinct in-range operand lists of those counts |
| AdditionText.DrillPairsAt | projects/trainAdd/data_proc/data_make.py:255-256 | the drill holds `limit²` pairs (none for `limit <= 0`), `(i, j)` at `i*limit + j` |
| AdditionText.DrillText | projects/trainAdd/data_proc/data_make.py:253-259 | the drill file holds the lines of all its pairs in row-major order |
| AdditionText.DrillLines | projects/trainAdd/data_proc/data_make.py:253-259 | the drill file splits into `limit²` lines and an empty tail, and the line at `i*limit + j` is `i+j=<i+j>` |
| Curriculum.MakeCausalText | projects/trainAdd/data_proc/data_make.py:266-293 | ValueError when `<` or `>` is absent; otherwise the prefixes of the text ending one past `<` through the first `>` |
| Curriculum.PrefixesGrow | projects/trainAdd/data_proc/data_make.py:287-291 | the texts grow one character at a time: the first ends one past its start, each extends the previous by the next character, and the last is the text up to the end |
| Curriculum.CausalPrefixesFail | projects/trainAdd/data_proc/data_make.py:281-282 | failure happens exactly when a marker is missing, and `<` is reported first |
| Curriculum.CausalTextExample | projects/trainAdd/data_proc/data_make.py:296-300 | `"1+2=<3>"` gives exactly `["1+2=<3", "1+2=<3>"]` |
| Curriculum.EquationSteps | projects/trainAdd/data_proc/data_make.py:281-293 | for an equation line, make_causal_text succeeds with one text per answer character plus one for `>`, the last being the whole line |
| Curriculum.FlattenDataset | projects/trainAdd/data_proc/data_make.py:305-313 | the dataset is the texts of every non-empty line in order, or the first line's ValueError |
| Curriculum.FlattenFails | projects/trainAdd/data_proc/data_make.py:308-311 | once a line fails, the whole file fails with that error |
| Curriculum.FlattenEquations | projects/trainAdd/data_proc/data_make.py:308-311 | flattening equation lines never fails and yields each equation's texts in turn |
| Curriculum.DatasetOfRendered | projects/trainAdd/data_proc/data_make.py:303-313 | the dataset built from a written equation file never fails and holds exactly the texts of its equations, line by line |
| ChatTemplate.InsertMarkersPieces | src/easy_ds_EN_to_SP.py:30-37 | the two replacements keep every piece between the templates and only turn `### Human:` into EOS plus the template, and then `### Assistant:` into the template plus BOS |
| ChatTemplate.WithTrailingEos | src/easy_ds_EN_to_SP.py:38-39 | the text ends with EOS afterwards; it is unchanged if it already did, and otherwise EOS is appended |
| ChatTemplate.AddSpecialTokens | src/easy_ds_EN_to_SP.py:25-43 | the marked text is a run of whole EOS copies followed by the result, and the result no longer starts with EOS |
| ChatTemplate.Scan | src/easy_ds_EN_to_SP.py:77-86 | the masking pass keeps the length, and every label is either kept or -100 |
| ChatTemplate.CreateSpecialMask | src/easy_ds_EN_to_SP.py:62-87 | the label array afterwards holds the masked labels of its old contents |
| ChatTemplate.ScanAppend | src/easy_ds_EN_to_SP.py:77-86 | masking a concatenation masks the first part, then carries on with the second from the state the first ended in |
| ChatTemplate.MaskedThroughFirstBos | src/easy_ds_EN_to_SP.py:75-82 | every label from the start up to and including the first BOS id becomes -100 |
| ChatTemplate.NoBosAllMasked | src/easy_ds_EN_to_SP.py:75-82 | without a BOS id every label becomes -100 |
| ChatTemplate.HumanSpan | src/easy_ds_EN_to_SP.py:78-82 | a human stretch without BOS is masked throughout and stays human, so an example with no BOS is masked entirely |
| ChatTemplate.AssistantSpan | src/easy_ds_EN_to_SP.py:83-86 | an assistant stretch without EOS is kept unchanged and stays assistant |
| ChatTemplate.HumanTurn | src/easy_ds_EN_to_SP.py:78-82 | the human turn is masked up to and including its BOS, and the pass then switches to the assistant |
| ChatTemplate.AssistantTurn | src/easy_ds_EN_to_SP.py:83-86 | the assistant turn is kept up to and including its EOS, and the pass then returns to the human state |
| ChatTemplate.Exchange | src/easy_ds_EN_to_SP.py:77-86 | a human turn then an assistant turn: only the human turn is masked, and the pass ends in the human state |
| ChatTemplate.TurnMask | src/easy_ds_EN_to_SP.py:77-86 | for `x + [BOS] + y + [EOS] + rest`: `|x|+1` masks, then `y` and EOS kept, then `rest` masked afresh as a new example |

## Left out

- File and directory I/O, `print`, the `__main__` blocks, the parameter tables of `桁数の内挿` and `桁数の外挿汎化`, and `足し算データ生成.write_files`. Each writes or prints what the modelled functions compute.
- torch tensors are sequences of integers or booleans. `F.pad` is written out as a concatenation, and the slice assignment of the mask is a parallel `forall` assignment.
- `足し算ドリル.__len__` and `__getitem__` only compose Encode and MakeCausalData. The tokenizer built at line 316 is `CharTokenizer.Build` of the file text.
- The Hugging Face glue around the chat steps (`easy_ds`, `tokenized_ds`, `add_labels_to_ds`, `masked_ds`, `get_masked_ds`, `EasyEnToSpDM`) is not modelled. Neither is the external tokenizer that turns the marked text into ids. These are foreign library calls.
- src/bloom_560m.py is not part of this model. It wraps a foreign model library (download, generation, optimizer) with nothing to verify without it.
- Sample rates are exact fractions `num/den`, not binary floats, so a float whose product rounds differently is not captured.
- `random.randint` is a nondeterministic choice of a value not yet drawn. A repeated draw leaves the set unchanged, so it is not modelled.
- The order of `list(unique_numbers)`, which Python's set decides, is any order: the generator is proved for every operand list.
- DigitSampler.GetUniqueRandints: requires `n_digit >= 1`, because for `n_digit = 0` the bound `10 ** -1` is a float. It also requires the loop bound to fit in the range, because otherwise the source loops forever.
- ChatTemplate.AddSpecialTokens: requires a non-empty EOS string, because with an empty one the strip loop never ends.
- CharTokenizer.VocabularyIds: is stated for corpora without `□`. With `□` in the corpus, the pad entry overwrites that character's id. Build models the overwrite, but no property is proved about it.
- ChatTemplate.CreateSpecialMask: BOS and EOS ids are integers. A tokenizer whose `bos_token_id` is None never matches, which is the same as an id no label holds.

## Findings

| source | as written | input that shows it | evidently intended | confidence | as-written member | corrected member |
|---|---|---|---|---|---|---|
| projects/trainAdd/data_proc/data_make.py:76 | the loop bound is `int((stop - start) * sample_rate)`, and `stop - start` is one less than the number of values `randint(start, stop)` can return | `n_digit = 1`, `sample_rate = 1.0` (the first parameter row, line 157): the range 1..9 holds 9 values, but 8 are drawn | the docstring at line 136 says a rate of 1.0 puts every sample of the range into the dataset, so the count should be `rate * (stop - start + 1)` | not executed | DigitSampler.OneDigitFullRateDrawsEight | DigitSampler.GetUniqueRandintsFullRange |

`AdditionText.AdditionProblems` keeps the sampler as written, so the
generated files match what the source produces. The corrected sampler
proves the intended coverage.
