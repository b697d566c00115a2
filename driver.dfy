/**
  The script's main program: for every line of the collection manifest, sample `n` files of
  the collection's directory tree, count the tokens of each, and summarise the counts; then
  render all the summaries as one markdown table. Everything the script reaches outside
  itself (the file system, the tokenizer, number formatting) comes in as an `Env`.
*/
module Driver {
  import opened Wrappers
  import opened Stats
  import opened Manifest
  import opened DirTree
  import opened Sampling
  import opened Report

  /** The outside world, as the script sees it. */
  datatype Env = Env(
    walk: string -> seq<WalkStep>,            // `os.walk(dir_)`; a missing directory walks to nothing
    read: (string, string) -> Option<string>, // `open(path, encoding=...).read()`; None when it raises
    fnmatch: Matcher,                         // `fnmatch.fnmatch`
    countTokens: string -> Option<nat>,       // `count_tokens`; None when `encode` raises
    fmt: Formats)                             // the f-string number conversions

  /** The exceptions that end the run. */
  datatype RunError =
    | ManifestLineError(index: nat, lineError: ManifestError)      // `IndexError` on `info[1]`
    | SamplingError(directory: string, sampleError: SampleError) // `ValueError` from `random.sample`
    | LoadError(path: string, encoding: string)                  // `open` or `read` raised
    | TokenizerError(path: string)                               // `encode` raised on the file's text
    | StatisticsError(collname: string)                          // fewer than two samples for `stdev`

  /**
    `load_files(filenames, char_encoding)`, consumed in full on its own: the texts of the
    files in order, or the first file that cannot be opened and decoded. Inside
    `sample_token_lengths` the same generator is driven one file at a time, interleaved
    with the token counts; `SampleTokenLengths` models that.
  */
  method LoadFiles(paths: seq<string>, encoding: string, read: (string, string) -> Option<string>)
    returns (r: Result<seq<string>, RunError>)
    ensures r.Success? <==> forall i :: 0 <= i < |paths| ==> read(paths[i], encoding).Some?
    ensures r.Success? ==>
              |r.value| == |paths| && forall i :: 0 <= i < |paths| ==> read(paths[i], encoding) == Some(r.value[i])
    ensures r.Failure? ==>
              exists i :: 0 <= i < |paths| && r.error == LoadError(paths[i], encoding) && read(paths[i], encoding).None?
                          && forall j :: 0 <= j < i ==> read(paths[j], encoding).Some?
  {
    var texts: seq<string> := [];
    var i := 0;
    while i < |paths|
      invariant 0 <= i <= |paths|
      invariant |texts| == i
      invariant forall j :: 0 <= j < i ==> read(paths[j], encoding) == Some(texts[j])
    {
      var text := read(paths[i], encoding);
      if text.None? {
        return Failure(LoadError(paths[i], encoding));
      }
      texts := texts + [text.value];
      i := i + 1;
    }
    return Success(texts);
  }

  // ---------------------------------------------------------------------------
  // One collection's sample

  /** The listing `sample_filenames` draws from: the tree under `directory`, `.bz2` files left out. */
  function Listing(env: Env, directory: string): seq<string> {
    TreePaths(env.walk(directory), ExcludePatterns, env.fnmatch)
  }

  /** `random.sample(listing, n)` accepts `n`. */
  predicate InRange(n: int, listing: seq<string>) {
    0 <= n <= |listing|
  }

  /** `sampled` is a draw of `n` paths at distinct positions of `listing`. */
  predicate Drawn(sampled: seq<string>, n: int, listing: seq<string>) {
    |sampled| == n && multiset(sampled) <= multiset(listing)
  }

  /** The file at `path` opens and decodes. */
  predicate Readable(env: Env, path: string, encoding: string) {
    env.read(path, encoding).Some?
  }

  /**
    The token count of one file, or the exception that stops it: the file does not open
    and decode, or its text does not tokenize.
  */
  function FileTokens(env: Env, path: string, encoding: string): (r: Result<nat, RunError>)
    ensures r.Failure? ==> r.error == LoadError(path, encoding) || r.error == TokenizerError(path)
    ensures r.Failure? && r.error.LoadError? <==> !Readable(env, path, encoding)
    ensures r.Success? <==> Readable(env, path, encoding) && env.countTokens(env.read(path, encoding).value).Some?
  {
    match env.read(path, encoding)
    case None => Failure(LoadError(path, encoding))
    case Some(text) =>
      match env.countTokens(text)
      case None => Failure(TokenizerError(path))
      case Some(count) => Success(count)
  }

  /**
    The position of the first file of `paths` whose token count fails, or `|paths|` when
    every file reads and tokenizes.
  */
  function FirstFailing(env: Env, paths: seq<string>, encoding: string): (k: nat)
    ensures k <= |paths|
    ensures forall j :: 0 <= j < k ==> FileTokens(env, paths[j], encoding).Success?
    ensures k < |paths| ==> FileTokens(env, paths[k], encoding).Failure?
  {
    if paths == [] then 0
    else if FileTokens(env, paths[0], encoding).Failure? then 0
    else 1 + FirstFailing(env, paths[1..], encoding)
  }

  /** The token counts of files that all read and tokenize, in order. */
  function TokenCounts(env: Env, paths: seq<string>, encoding: string): (r: seq<nat>)
    requires forall i :: 0 <= i < |paths| ==> FileTokens(env, paths[i], encoding).Success?
    ensures |r| == |paths|
    ensures forall i :: 0 <= i < |paths| ==>
              env.read(paths[i], encoding).Some? && env.countTokens(env.read(paths[i], encoding).value) == Some(r[i])
  {
    seq(|paths|, i requires 0 <= i < |paths| => FileTokens(env, paths[i], encoding).value)
  }

  /**
    `sample_token_lengths(dir_, n, char_encoding)`: `n` files drawn at distinct positions
    of the directory's listing (ghost `sampled`), then the token count of each file's text,
    in the order drawn. `load_files` is a generator, so the list comprehension reads file
    `i` and counts its tokens before it opens file `i + 1`: the first file that fails to
    read or to tokenize ends the pass with its exception.
  */
  method SampleTokenLengths(env: Env, directory: string, n: int, encoding: string)
    returns (r: Result<seq<nat>, RunError>, ghost sampled: seq<string>)
    ensures !InRange(n, Listing(env, directory)) ==>
              r == Failure(SamplingError(directory, SampleLargerThanPopulationOrNegative))
    ensures InRange(n, Listing(env, directory)) ==>
              && Drawn(sampled, n, Listing(env, directory))
              && var k := FirstFailing(env, sampled, encoding);
                 if k < n then r == Failure(FileTokens(env, sampled[k], encoding).error)
                 else r == Success(TokenCounts(env, sampled, encoding))
  {
    sampled := [];
    var names := SampleFilenames(env.walk(directory), n, env.fnmatch);
    if names.Failure? {
      assert names.error == SampleLargerThanPopulationOrNegative;
      return Failure(SamplingError(directory, names.error)), sampled;
    }
    var paths := names.value;
    sampled := paths;
    var lengths: seq<nat> := [];
    var i := 0;
    while i < |paths|
      invariant 0 <= i <= |paths| && |lengths| == i
      invariant forall j :: 0 <= j < i ==> FileTokens(env, paths[j], encoding) == Success(lengths[j])
    {
      var text := env.read(paths[i], encoding);
      if text.None? {
        FirstFailingAt(env, paths, encoding, i);
        return Failure(LoadError(paths[i], encoding)), sampled;
      }
      var count := env.countTokens(text.value);
      if count.None? {
        FirstFailingAt(env, paths, encoding, i);
        return Failure(TokenizerError(paths[i])), sampled;
      }
      lengths := lengths + [count.value];
      i := i + 1;
    }
    FirstFailingAt(env, paths, encoding, i);
    assert lengths == TokenCounts(env, paths, encoding);
    return Success(lengths), sampled;
  }

  /** Files `0 .. i - 1` succeed and file `i` (if any) fails: then `i` is the first failure. */
  lemma {:induction false} FirstFailingAt(env: Env, paths: seq<string>, encoding: string, i: nat)
    requires i <= |paths|
    requires forall j :: 0 <= j < i ==> FileTokens(env, paths[j], encoding).Success?
    requires i < |paths| ==> FileTokens(env, paths[i], encoding).Failure?
    ensures FirstFailing(env, paths, encoding) == i
  {
    if i > 0 {
      assert FileTokens(env, paths[0], encoding).Success?;
      assert forall j :: 0 <= j < i - 1 ==> paths[1..][j] == paths[j + 1];
      FirstFailingAt(env, paths[1..], encoding, i - 1);
    }
  }

  // ---------------------------------------------------------------------------
  // One pass of the main loop

  /**
    What one pass of the `__main__` loop does with the manifest line at `index`, given the
    paths it draws: the line is split (`IndexError` without a `:`), `n` paths are drawn from
    the collection's listing (`ValueError` when `n` is out of range), each drawn file is read
    in the line's encoding and tokenized (the first failure raises), and the counts are
    summarised against the 8191-token threshold (`StatisticsError` for fewer than two).
  */
  predicate PassOutcome(env: Env, index: nat, line: string, n: int, sampled: seq<string>,
                        r: Result<SummaryStatistics, RunError>)
  {
    match ParseManifestLine(line)
    case Failure(e) => r == Failure(ManifestLineError(index, e))
    case Success(entry) =>
      var listing := Listing(env, entry.directory);
      if !InRange(n, listing) then
        r == Failure(SamplingError(entry.directory, SampleLargerThanPopulationOrNegative))
      else
        && Drawn(sampled, n, listing)
        && var k := FirstFailing(env, sampled, entry.encoding);
           if k < n then r == Failure(FileTokens(env, sampled[k], entry.encoding).error)
           else if n < 2 then r == Failure(StatisticsError(entry.name))
           else r == Success(SummaryStatisticsOf(entry.name, TokenCounts(env, sampled, entry.encoding)))
  }

  /**
    The conditions under which a pass succeeds, stated without the order of the checks: the
    line holds a `:`, `n` is at least two and at most the size of the collection's listing,
    the paths are a draw of `n` of them, and every drawn file reads in the line's encoding
    and tokenizes.
  */
  predicate PassSucceeds(env: Env, line: string, n: int, sampled: seq<string>) {
    match ParseManifestLine(line)
    case Failure(_) => false
    case Success(entry) =>
      && 2 <= n <= |Listing(env, entry.directory)|
      && Drawn(sampled, n, Listing(env, entry.directory))
      && forall i :: 0 <= i < n ==> Readable(env, sampled[i], entry.encoding)
                                    && env.countTokens(env.read(sampled[i], entry.encoding).value).Some?
  }

  /** A pass succeeds exactly under `PassSucceeds`: the four exceptions are the only ways to fail. */
  lemma PassSuccess(env: Env, index: nat, line: string, n: int, sampled: seq<string>,
                    r: Result<SummaryStatistics, RunError>)
    requires PassOutcome(env, index, line, n, sampled, r)
    ensures r.Success? <==> PassSucceeds(env, line, n, sampled)
  {
    if ParseManifestLine(line).Success? {
      var entry := ParseManifestLine(line).value;
      if InRange(n, Listing(env, entry.directory)) {
        var k := FirstFailing(env, sampled, entry.encoding);
        if k < n {
          assert !(Readable(env, sampled[k], entry.encoding)
                   && env.countTokens(env.read(sampled[k], entry.encoding).value).Some?);
        }
      }
    }
  }

  /**
    What the run promises of the record for one manifest line: the line parses, and the
    record is named after the line's collection, summarises `n` token counts (none negative)
    against the 8191-token threshold, and is ordered as `WellFormed` says.
  */
  predicate SummaryOfLine(record: SummaryStatistics, line: string, n: int) {
    match ParseManifestLine(line)
    case Failure(_) => false
    case Success(entry) =>
      && record.collname == entry.name
      && record.nsmpl == n
      && record.threshold == AdaMaxTokens
      && record.min >= 0
      && WellFormed(record)
  }

  /**
    A successful pass gives a record of its line's collection: `n` samples, threshold 8191,
    and a minimum and a maximum that are token counts of drawn files.
  */
  lemma PassRecord(env: Env, index: nat, line: string, n: int, sampled: seq<string>, record: SummaryStatistics)
    requires PassOutcome(env, index, line, n, sampled, Success(record))
    ensures SummaryOfLine(record, line, n)
    ensures exists i :: 0 <= i < n && FileTokens(env, sampled[i], ParseManifestLine(line).value.encoding) == Success(record.min)
    ensures exists i :: 0 <= i < n && FileTokens(env, sampled[i], ParseManifestLine(line).value.encoding) == Success(record.max)
  {
    var entry := ParseManifestLine(line).value;
    var counts := TokenCounts(env, sampled, entry.encoding);
    assert record == FromIntSeq(entry.name, counts, AdaMaxTokens);
    var i :| 0 <= i < |counts| && counts[i] == record.min;
    assert FileTokens(env, sampled[i], entry.encoding) == Success(record.min);
    var j :| 0 <= j < |counts| && counts[j] == record.max;
    assert FileTokens(env, sampled[j], entry.encoding) == Success(record.max);
  }

  /**
    One pass of the `__main__` loop, for the manifest line at `index` (ghost `sampled`: the
    paths it draws). The first exception ends the pass.
  */
  method SummariseLine(env: Env, index: nat, line: string, n: int)
    returns (r: Result<SummaryStatistics, RunError>, ghost sampled: seq<string>)
    ensures PassOutcome(env, index, line, n, sampled, r)
    ensures r.Success? <==> PassSucceeds(env, line, n, sampled)
    ensures r.Success? ==> SummaryOfLine(r.value, line, n)
    ensures r.Failure? && r.error.ManifestLineError? <==> ':' !in line
    ensures n < 2 ==> r.Failure?
  {
    sampled := [];
    var entry := ParseManifestLine(line);
    if entry.Failure? {
      r := Failure(ManifestLineError(index, entry.error));
      PassSuccess(env, index, line, n, sampled, r);
      return;
    }
    var lengths: Result<seq<nat>, RunError>;
    lengths, sampled := SampleTokenLengths(env, entry.value.directory, n, entry.value.encoding);
    if lengths.Failure? {
      r := Failure(lengths.error);
    } else if |lengths.value| < 2 {
      r := Failure(StatisticsError(entry.value.name));
    } else {
      r := Success(SummaryStatisticsOf(entry.value.name, lengths.value));
    }
    PassSuccess(env, index, line, n, sampled, r);
    if r.Success? {
      PassRecord(env, index, line, n, sampled, r.value);
    }
  }

  // ---------------------------------------------------------------------------
  // The main loop and the run

  /**
    The `__main__` loop over the manifest's lines (ghost `draws`: the paths each pass drew).
    On success there is one record per line, in order, each the outcome of its line's pass.
    On failure the passes before the last all succeeded and the last one raised the error.
  */
  method CollectStatistics(env: Env, lines: seq<string>, n: int)
    returns (r: Result<seq<SummaryStatistics>, RunError>, ghost draws: seq<seq<string>>)
    ensures r.Success? ==> |r.value| == |lines| == |draws|
    ensures r.Success? ==> forall i :: 0 <= i < |lines| ==> PassOutcome(env, i, lines[i], n, draws[i], Success(r.value[i]))
    ensures r.Success? ==> forall i :: 0 <= i < |lines| ==> SummaryOfLine(r.value[i], lines[i], n)
    ensures r.Failure? ==>
              && 0 < |draws| <= |lines|
              && (forall j :: 0 <= j < |draws| - 1 ==> PassSucceeds(env, lines[j], n, draws[j]))
              && !PassSucceeds(env, lines[|draws| - 1], n, draws[|draws| - 1])
              && PassOutcome(env, |draws| - 1, lines[|draws| - 1], n, draws[|draws| - 1], Failure(r.error))
    ensures (exists i :: 0 <= i < |lines| && ':' !in lines[i]) ==> r.Failure?
    ensures lines != [] && n < 2 ==> r.Failure?
  {
    var statsList: seq<SummaryStatistics> := [];
    draws := [];
    var i := 0;
    while i < |lines|
      invariant 0 <= i <= |lines|
      invariant |statsList| == i
      invariant Passed(env, lines, n, draws, statsList)
    {
      var record: Result<SummaryStatistics, RunError>;
      ghost var sampled: seq<string>;
      record, sampled := SummariseLine(env, i, lines[i], n);
      if record.Failure? {
        PassedThenFailed(env, lines, n, draws, statsList, sampled, record.error);
        return Failure(record.error), draws + [sampled];
      }
      PassedExtend(env, lines, n, draws, statsList, sampled, record.value);
      draws := draws + [sampled];
      statsList := statsList + [record.value];
      i := i + 1;
    }
    PassesSucceed(env, lines, n, draws, statsList);
    return Success(statsList), draws;
  }

  /** The first `|stats|` passes each produced their record, from the paths in `draws`. */
  predicate Passed(env: Env, lines: seq<string>, n: int, draws: seq<seq<string>>, stats: seq<SummaryStatistics>) {
    && |draws| == |stats| <= |lines|
    && forall j :: 0 <= j < |stats| ==> PassOutcome(env, j, lines[j], n, draws[j], Success(stats[j]))
  }

  /** One more successful pass extends the passes. */
  lemma PassedExtend(env: Env, lines: seq<string>, n: int, draws: seq<seq<string>>, stats: seq<SummaryStatistics>,
                     sampled: seq<string>, record: SummaryStatistics)
    requires Passed(env, lines, n, draws, stats) && |stats| < |lines|
    requires PassOutcome(env, |stats|, lines[|stats|], n, sampled, Success(record))
    ensures Passed(env, lines, n, draws + [sampled], stats + [record])
  {
    var draws', stats' := draws + [sampled], stats + [record];
    forall j | 0 <= j < |stats'|
      ensures PassOutcome(env, j, lines[j], n, draws'[j], Success(stats'[j]))
    {
      if j < |stats| {
        assert draws'[j] == draws[j] && stats'[j] == stats[j];
      } else {
        assert draws'[j] == sampled && stats'[j] == record;
      }
    }
  }

  /** Passes that succeeded, then one that failed: what the main loop reports on failure. */
  lemma PassedThenFailed(env: Env, lines: seq<string>, n: int, draws: seq<seq<string>>, stats: seq<SummaryStatistics>,
                         sampled: seq<string>, error: RunError)
    requires Passed(env, lines, n, draws, stats) && |stats| < |lines|
    requires PassOutcome(env, |stats|, lines[|stats|], n, sampled, Failure(error))
    requires !PassSucceeds(env, lines[|stats|], n, sampled)
    ensures var draws' := draws + [sampled];
            && 0 < |draws'| <= |lines|
            && (forall j :: 0 <= j < |draws'| - 1 ==> PassSucceeds(env, lines[j], n, draws'[j]))
            && !PassSucceeds(env, lines[|draws'| - 1], n, draws'[|draws'| - 1])
            && PassOutcome(env, |draws'| - 1, lines[|draws'| - 1], n, draws'[|draws'| - 1], Failure(error))
  {
    var draws' := draws + [sampled];
    forall j | 0 <= j < |draws'| - 1
      ensures PassSucceeds(env, lines[j], n, draws'[j])
    {
      assert draws'[j] == draws[j];
      PassSuccess(env, j, lines[j], n, draws[j], Success(stats[j]));
    }
    assert draws'[|draws'| - 1] == sampled;
  }

  /**
    Passes that all produced records: each of them succeeds as `PassSucceeds` says, so every
    line holds a `:` and `n` is at least two, and each record is its line's summary.
  */
  lemma PassesSucceed(env: Env, lines: seq<string>, n: int, draws: seq<seq<string>>, stats: seq<SummaryStatistics>)
    requires Passed(env, lines, n, draws, stats) && |stats| == |lines|
    ensures forall j :: 0 <= j < |lines| ==> PassOutcome(env, j, lines[j], n, draws[j], Success(stats[j]))
    ensures forall j :: 0 <= j < |lines| ==> PassSucceeds(env, lines[j], n, draws[j])
    ensures forall j :: 0 <= j < |lines| ==> SummaryOfLine(stats[j], lines[j], n)
    ensures forall j :: 0 <= j < |lines| ==> ':' in lines[j]
    ensures lines != [] ==> n >= 2
  {
    forall j | 0 <= j < |lines|
      ensures PassSucceeds(env, lines[j], n, draws[j]) && SummaryOfLine(stats[j], lines[j], n) && ':' in lines[j]
    {
      PassSuccess(env, j, lines[j], n, draws[j], Success(stats[j]));
      PassRecord(env, j, lines[j], n, draws[j], stats[j]);
    }
    if lines != [] {
      assert PassSucceeds(env, lines[0], n, draws[0]);
    }
  }

  /**
    The whole run: the text `print` writes, which is the markdown table of the summaries
    (ghost `stats`), one row per manifest line in order, and the newline `print` ends with.
  */
  method RunManifest(env: Env, lines: seq<string>, n: int)
    returns (r: Result<string, RunError>, ghost stats: seq<SummaryStatistics>, ghost draws: seq<seq<string>>)
    ensures r.Success? ==> r.value == MarkdownTable(stats, env.fmt) + "\n" && |stats| == |lines| == |draws|
    ensures r.Success? ==> forall i :: 0 <= i < |lines| ==> PassOutcome(env, i, lines[i], n, draws[i], Success(stats[i]))
    ensures r.Success? ==> forall i :: 0 <= i < |lines| ==> SummaryOfLine(stats[i], lines[i], n)
    ensures r.Failure? ==>
              && 0 < |draws| <= |lines|
              && (forall j :: 0 <= j < |draws| - 1 ==> PassSucceeds(env, lines[j], n, draws[j]))
              && !PassSucceeds(env, lines[|draws| - 1], n, draws[|draws| - 1])
              && PassOutcome(env, |draws| - 1, lines[|draws| - 1], n, draws[|draws| - 1], Failure(r.error))
    ensures (exists i :: 0 <= i < |lines| && ':' !in lines[i]) ==> r.Failure?
    ensures lines != [] && n < 2 ==> r.Failure?
  {
    stats := [];
    var collected;
    collected, draws := CollectStatistics(env, lines, n);
    if collected.Failure? {
      return Failure(collected.error), stats, draws;
    }
    stats := collected.value;
    r := Success(MarkdownTable(collected.value, env.fmt) + "\n");
  }
}
