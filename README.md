# Token-length statistics of text collections, in Dafny

`dirtree_tok_stats.py` measures how long, in tokens, the documents of several text
collections are. A manifest names each collection: `<name>:<directory>[:<encoding>]`.
For each collection, the script:

1. walks the directory tree and lists the files, except those that match an exclusion
   pattern (by default `*.bz2`);
2. samples `n` of those files at random;
3. reads each sampled file in the given encoding and counts its tokens;
4. reduces the counts to a `SummaryStatistics` record: size, mean, median, standard
   deviation, minimum, maximum, the 5th and 95th percentiles, and how many counts exceed
   the embedding model's 8191-token limit.

Last, it prints all the records as one markdown table.

The model has one module per part of the script:

- `Wrappers`: `Option` and `Result`.
- `Text`: Python's `str.strip`, `str.split` and `str.join`, and the text of triple-quoted
  f-strings (lines, each ended by a newline).
- `Stats`: the statistics record. `SummaryStatistics.from_int_seq` is a pure function over
  exact integers and reals, with the record's invariant `WellFormed` and lemmas on the
  median, the percentiles, the mean, the variance and the count above the threshold.
- `Manifest`: the parsing of one manifest line.
- `DirTree`: `list_directory_tree`. It is the source's nested loops, proved against the
  function `TreePaths` that states what the listing is.
- `Sampling`: `random.sample` and `sample_filenames`. The random choice is a
  nondeterministic choice, so every proved property holds for every possible draw.
- `Report`: `SummaryStatistics.formatted` and `smy_stats_list_markdown_table`. The layout
  and literal texts are modelled. The number conversions are parameters.
- `Driver`: `load_files`, `sample_token_lengths` and the `__main__` loop. These are methods
  over an `Env` that stands for the file system, the tokenizer and the number formatting.

## Model

| member | source | states |
|---|---|---|
| `Stats.FromIntSeq` | src/txtcollstats/dirtree_tok_stats.py:65-79 | From two samples or more, the record keeps the collection name and the threshold as given, and `nsmpl` is the sample count. `min` and `max` are samples and bound every sample. `above_threshold` is the number of samples strictly above the threshold. The record is `WellFormed`: min ≤ p5 ≤ median ≤ p95 ≤ max, min ≤ mean ≤ max, variance ≥ 0, 0 ≤ above ≤ nsmpl, above = 0 once the threshold reaches the maximum, and above = nsmpl when the threshold is below the minimum. |
| `Stats.SummaryStatisticsOf` | src/txtcollstats/dirtree_tok_stats.py:95-96 | `summary_statistics` builds a well-formed record whose threshold is always 8191 (`ADA_MAX_TOKENS`, line 12), and counts the samples above 8191. |
| `Stats.SeqMin` | src/txtcollstats/dirtree_tok_stats.py:73 | `min(seq)` is an element of the sequence and no larger than any element. |
| `Stats.SeqMax` | src/txtcollstats/dirtree_tok_stats.py:74 | `max(seq)` is an element of the sequence and no smaller than any element. |
| `Stats.Sort` | src/txtcollstats/dirtree_tok_stats.py:71-76 | The order that median and percentiles work on is sorted and a permutation of the samples. |
| `Stats.SortedPermutationUnique` | src/txtcollstats/dirtree_tok_stats.py:71-76 | Two sorted permutations of the same samples are equal, so the order statistics do not depend on how the sort is done. |
| `Stats.RecordOrderStatistics` | src/txtcollstats/dirtree_tok_stats.py:71-76 | The record's median and 5th and 95th percentiles are those of every sorted permutation of the samples. |
| `Stats.RecordOrderInsensitive` | src/txtcollstats/dirtree_tok_stats.py:65-79 | Reordering the samples changes none of the record's median, percentiles, minimum, maximum or count above the threshold. |
| `Stats.MedianIsPercentile50` | src/txtcollstats/dirtree_tok_stats.py:71-76 | `statistics.median` (the middle element, or the mean of the two middle ones) equals numpy's 50th percentile. |
| `Stats.RankValueBetween` | src/txtcollstats/dirtree_tok_stats.py:75-76 | numpy's linear interpolation at rank p/100·(n−1) lies between the two neighbouring sorted samples, and is the last sample at the top rank. |
| `Stats.PercentileMonotone` | src/txtcollstats/dirtree_tok_stats.py:75-76 | A higher percentile is never smaller. |
| `Stats.PercentileEnds` | src/txtcollstats/dirtree_tok_stats.py:75-76 | The 0th and 100th percentiles are the smallest and the largest sample. |
| `Stats.OrderingChain` | src/txtcollstats/dirtree_tok_stats.py:71-76 | On sorted data: first ≤ p5 ≤ median ≤ p95 ≤ last. |
| `Stats.SampleOrderingChain` | src/txtcollstats/dirtree_tok_stats.py:71-76 | For any samples: min ≤ p5 ≤ median ≤ p95 ≤ max. |
| `Stats.MeanBetween` | src/txtcollstats/dirtree_tok_stats.py:70 | The mean lies between the minimum and the maximum, and the mean times the count is the sum of the samples. |
| `Stats.Variance` | src/txtcollstats/dirtree_tok_stats.py:72 | The sample variance (divisor n − 1), which `stdev` takes the root of, is never negative. |
| `Stats.CountAboveBounds` | src/txtcollstats/dirtree_tok_stats.py:77 | The count above the threshold is at most the sample count. It is 0 when the threshold is at least the maximum, and is every sample when the threshold is below the minimum. |
| `Stats.CountAboveExtremes` | src/txtcollstats/dirtree_tok_stats.py:77 | The count is 0 when no sample exceeds the threshold, and is every sample when all exceed it. |
| `Stats.CountAboveAppend` | src/txtcollstats/dirtree_tok_stats.py:77 | Counting distributes over concatenating sample lists. |
| `Stats.CountAbovePermutation` | src/txtcollstats/dirtree_tok_stats.py:77 | The count does not depend on the order of the samples. |
| `Stats.CountAboveAntitone` | src/txtcollstats/dirtree_tok_stats.py:77 | Raising the threshold never raises the count. |
| `Text.Strip` | src/txtcollstats/dirtree_tok_stats.py:117 | `str.strip()` leaves no whitespace at either end. |
| `Text.StripKeeps` | src/txtcollstats/dirtree_tok_stats.py:117 | Stripping keeps every character that is not whitespace, and adds none. |
| `Text.Split` | src/txtcollstats/dirtree_tok_stats.py:117 | `str.split(sep)` gives at least one field. It gives exactly one when `sep` does not occur. No field holds `sep`. |
| `Text.JoinSplit` | src/txtcollstats/dirtree_tok_stats.py:117 | Joining the fields of `str.split(sep)` with `sep` gives back the text. |
| `Text.SplitJoin` | src/txtcollstats/dirtree_tok_stats.py:117 | Splitting the join of separator-free fields gives back those fields. |
| `Text.TerminatedLines` | src/txtcollstats/dirtree_tok_stats.py:100-104 | A text of newline-ended lines splits back into those lines, with an empty tail. |
| `Manifest.ParseManifestLine` | src/txtcollstats/dirtree_tok_stats.py:117-123 | A manifest line parses exactly when it holds a `:`. Without one, `info[1]` fails. The name, directory and encoding it yields hold no `:`. |
| `Manifest.ColonFields` | src/txtcollstats/dirtree_tok_stats.py:117-119 | The stripped line has two fields or more exactly when the line holds a `:`. |
| `Manifest.ParseFields` | src/txtcollstats/dirtree_tok_stats.py:117-123 | A line whose stripped text is the `:`-join of its fields parses as follows: field 0 is the name and field 1 the directory. Field 2 is the encoding when present, and "utf-8" otherwise. Later fields are ignored. |
| `Manifest.ParseEntryLine` | src/txtcollstats/dirtree_tok_stats.py:116-123 | Writing an entry as `name:directory:encoding`, surrounded by any whitespace (such as the line's newline), and parsing it gives back the entry. |
| `Manifest.ParseEntryLineDefault` | src/txtcollstats/dirtree_tok_stats.py:120-123 | `name:directory` parses with the encoding "utf-8". |
| `DirTree.ListDirectoryTree` | src/txtcollstats/dirtree_tok_stats.py:17-25 | The generator's nested loops, run to completion, yield exactly `TreePaths`. That is, walk step by walk step, each kept file name is joined to its directory. `exclude_patterns=None` means no patterns. |
| `DirTree.KeptNamesMember` | src/txtcollstats/dirtree_tok_stats.py:22-24 | A file name is kept if and only if it is listed and matches none of the patterns. |
| `DirTree.KeptNamesAppend` | src/txtcollstats/dirtree_tok_stats.py:22-24 | The filter keeps the listing order: it distributes over concatenation. |
| `DirTree.KeptNamesNoPatterns` | src/txtcollstats/dirtree_tok_stats.py:18-19 | With `exclude_patterns=None` every name is kept, in order. |
| `DirTree.TreePathsSound` | src/txtcollstats/dirtree_tok_stats.py:21-25 | Every listed path is some walked directory joined to one of its listed, unexcluded names. |
| `DirTree.TreePathsComplete` | src/txtcollstats/dirtree_tok_stats.py:21-25 | Every walked name that matches no pattern appears in the listing, joined to its directory. |
| `DirTree.DefaultPatterns` | src/txtcollstats/dirtree_tok_stats.py:14 | Under `EXCLUDE_PATTERNS = ["*.bz2"]` and `*.suffix` matching, a name is excluded exactly when it ends in `.bz2`, and `archive.tar` is kept. |
| `DirTree.DefaultListingDropsBz2` | src/txtcollstats/dirtree_tok_stats.py:14-29 | With the default patterns, no listed path comes from a `.bz2` file. |
| `Sampling.Sample` | src/txtcollstats/dirtree_tok_stats.py:29 | `random.sample` fails exactly when `k` is negative or larger than the population. Otherwise it returns `k` elements drawn at distinct positions, a sub-multiset of the population. |
| `Sampling.SampleDistinct` | src/txtcollstats/dirtree_tok_stats.py:29 | A sample of a population without duplicates, such as a listing of paths, has no duplicates. |
| `Sampling.SampleFilenames` | src/txtcollstats/dirtree_tok_stats.py:28-29 | `sample_filenames` fails exactly when `n` is negative or larger than the default-filtered listing. Otherwise it returns `n` listed paths at distinct positions. |
| `Report.FormattedLayout` | src/txtcollstats/dirtree_tok_stats.py:81-92 | `formatted()` has exactly nine newline-ended lines, in the order nsmpl, mean, stdev, min, 5%, median, 95%, max. The last line shows the record's own threshold and then its count above it, followed by `%`. |
| `Report.TableLayout` | src/txtcollstats/dirtree_tok_stats.py:99-104 | The table's lines are the fixed header, the fixed rule, one row per record in the given order, and an empty tail. With no records, the rows become one empty line. |
| `Report.TableIsJoin` | src/txtcollstats/dirtree_tok_stats.py:99-104 | The table text is the newline-join of header, rule, rows and an empty tail. |
| `Report.HeaderAvoidsNewline` | src/txtcollstats/dirtree_tok_stats.py:101-102 | The header and rule lines hold no newline. |
| `Report.HeaderColumns` | src/txtcollstats/dirtree_tok_stats.py:101 | The header splits on `\|` into its ten column titles, with an empty text at either end. |
| `Report.HeaderLastColumn` | src/txtcollstats/dirtree_tok_stats.py:101 | The header has ten columns. The last is titled `>8191` whatever the records' thresholds. |
| `Report.RowColumns` | src/txtcollstats/dirtree_tok_stats.py:103 | A row whose name and numbers hold no `\|` splits into ten cells, as many as the header has. Its tenth cell is the record's count above its threshold. |
| `Report.RowAvoids` | src/txtcollstats/dirtree_tok_stats.py:103 | A row holds a character other than a space or `\|` only if the collection name or a formatted number holds it. |
| `Driver.LoadFiles` | src/txtcollstats/dirtree_tok_stats.py:32-35 | The files are read in order. The run succeeds exactly when every file opens and decodes, and then gives each file's text at its position. Otherwise it names the first file that fails. |
| `Driver.FileTokens` | src/txtcollstats/dirtree_tok_stats.py:33-47 | One file's token count, or the exception that stops it: a `LoadError` exactly when the file does not open and decode, a `TokenizerError` when its text does not tokenize, and a count exactly when both succeed. |
| `Driver.FirstFailing` | src/txtcollstats/dirtree_tok_stats.py:33-47 | The files before the returned position all read and tokenize, and the file at it (if any) does not: the comprehension stops there. |
| `Driver.SampleTokenLengths` | src/txtcollstats/dirtree_tok_stats.py:44-47 | A sampling error exactly when `n` is out of range for the directory's listing. Otherwise the drawn paths are `n` paths at distinct positions of the listing. The result is the exception of the first drawn file that fails to read or to tokenize, or, when none fails, the token counts of the drawn files in the order drawn. |
| `Driver.SummariseLine` | src/txtcollstats/dirtree_tok_stats.py:117-125 | One pass of the manifest loop follows `PassOutcome`. The `IndexError` comes for a line without `:`, and the `ValueError` for an `n` out of range for the listing of the line's directory. The first drawn file that does not read in the line's encoding, or does not tokenize, raises its error, and fewer than two counts raise `StatisticsError`. Otherwise the record is `summary_statistics` of the token counts of the `n` files drawn. It succeeds exactly when `PassSucceeds` holds. |
| `Driver.PassSuccess` | src/txtcollstats/dirtree_tok_stats.py:117-125 | A pass succeeds if and only if the line holds a `:`, 2 ≤ `n` ≤ the size of the directory's listing, and every drawn file reads in the line's encoding and tokenizes. These four are the only ways a pass fails. |
| `Driver.PassRecord` | src/txtcollstats/dirtree_tok_stats.py:117-125 | A successful pass gives a well-formed record named after its line's collection, with `nsmpl = n` and threshold 8191. Its minimum and maximum are token counts of drawn files. |
| `Driver.CollectStatistics` | src/txtcollstats/dirtree_tok_stats.py:115-125 | On success there is one record per manifest line, in order, each the outcome of its line's pass over the files that pass drew. On failure the error is that of the first pass that fails: every earlier pass succeeds, and the failing one raises it as `PassOutcome` says. A line without `:`, or a non-empty manifest with `n < 2`, forces failure. |
| `Driver.PassesSucceed` | src/txtcollstats/dirtree_tok_stats.py:115-125 | When every pass produced its record, every line holds a `:`, `n` is at least two, and each record is its line's summary. |
| `Driver.RunManifest` | src/txtcollstats/dirtree_tok_stats.py:115-126 | The printed text is the markdown table of the records of all the passes, one per manifest line, followed by the newline `print` adds. It fails as the main loop does, with the error of the first failing pass. |

## Left out

- File system, tokenizer and console: `os.walk`, `open(...).read()`, the tokenizer
  `tiktoken` and `print` are not modelled. The walk, the read and the token count are
  parameters of the `Driver` (`Env`). The printed text, the table and the newline `print`
  ends it with, is the result of `RunManifest`.
  Reading the manifest file (line 116) is replaced by its lines given as a sequence, and
  `argparse` by the parameter `n`. The default `--n` of 10000 is not modelled.
- A manifest directory that does not exist: `os.walk` skips the error, so the walk is empty
  and the sampling then fails for any `n > 0`. The model follows the code here. A missing
  directory is not a separate error.
- Randomness: `random.sample` is a nondeterministic choice of positions. Its distribution
  and its exact algorithm are not modelled.
- Floating point: the statistics are exact rationals (`real`). The float rounding of
  `statistics.mean`, `statistics.median` and `numpy.percentile` is not modelled.
- Stats.FromIntSeq: stores the sample variance in place of `stdev`, because the square root
  is not modelled. The formatting of `stdev` takes the variance and stands for formatting
  its root.
- Stats.FromIntSeq: needs two samples or more. With fewer, `statistics.stdev` (or, for
  none, `statistics.mean`) raises `StatisticsError`, and `Driver.CollectStatistics` returns
  that error.
- Stats.FromIntSeq: its contract bounds the mean between min and max. The mean is
  `Stats.Mean`, the sum over the count, and `Stats.MeanBetween` proves that relation for it.
- Number formatting: the f-string conversions (`{x}`, `{x:.0f}`, `{x:5d}`, `{x:4d}`,
  `{x:5.0f}`) are the functions of a `Report.Formats` record.
- Glob matching: `fnmatch.fnmatch` is a parameter. Only the `*.suffix` patterns of the
  default list are given a meaning (`DirTree.StarSuffixMatch`).
- `os.path.join`: modelled for the relative file names that `os.walk` lists. An absolute
  second argument never occurs there.
- Laziness: the generators `list_directory_tree` and `load_files` are consumed in full by
  their callers, so they are modelled as computations that return the whole sequence.
- Text encodings: decoding a file in the manifest's encoding is part of the `read`
  parameter. Whitespace for `str.strip` is Python's `str.isspace` set. No other Unicode
  property is needed.
- Driver.SampleTokenLengths: the drawn paths are a ghost out-parameter, because the source
  returns only the counts. The same holds for the draws of `Driver.SummariseLine`,
  `Driver.CollectStatistics` and `Driver.RunManifest`.
- Tokenizer errors: `encode` raises on text that holds a special token such as
  `<|endoftext|>`. The model lets `countTokens` fail on any text it chooses
  (`TokenizerError`); which texts those are is not modelled.
