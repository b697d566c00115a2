/**
  The sampler: `random.sample` draws `k` elements at distinct positions of the population,
  and `sample_filenames` applies it to the full listing of a directory tree. The random
  choice is left to the verifier: any choice of positions is allowed, and the contracts
  say what every such choice gives.
*/
module Sampling {
  import opened Wrappers
  import opened DirTree

  /** `ValueError("Sample larger than population or is negative")`. */
  datatype SampleError = SampleLargerThanPopulationOrNegative

  predicate NoDuplicates<T(==)>(s: seq<T>) {
    forall i, j :: 0 <= i < j < |s| ==> s[i] != s[j]
  }

  /**
    `random.sample(population, k)`: fails unless `0 <= k <= len(population)`; otherwise
    returns `k` elements taken at distinct positions, which is to say a sub-multiset of the
    population of size `k`. Elements are drawn one at a time from a shrinking pool.
  */
  method Sample<T(==)>(population: seq<T>, k: int) returns (r: Result<seq<T>, SampleError>)
    ensures r.Failure? <==> k < 0 || k > |population|
    ensures r.Success? ==> |r.value| == k && multiset(r.value) <= multiset(population)
  {
    if k < 0 || k > |population| {
      return Failure(SampleLargerThanPopulationOrNegative);
    }
    var pool := population;
    var chosen := [];
    while |chosen| < k
      invariant |chosen| <= k
      invariant |chosen| + |pool| == |population|
      invariant multiset(chosen) + multiset(pool) == multiset(population)
      decreases k - |chosen|
    {
      var j :| 0 <= j < |pool|;
      assert pool == pool[..j] + [pool[j]] + pool[j + 1..];
      chosen := chosen + [pool[j]];
      pool := pool[..j] + pool[j + 1..];
    }
    return Success(chosen);
  }

  /** In a sequence without duplicates every element occurs once. */
  lemma {:induction false} DistinctOccursOnce<T>(s: seq<T>, x: T)
    requires NoDuplicates(s)
    ensures multiset(s)[x] <= 1
  {
    if s != [] {
      assert s == [s[0]] + s[1..];
      DistinctOccursOnce(s[1..], x);
      if x == s[0] {
        assert x !in s[1..];
      }
    }
  }

  /** An element found at two positions occurs at least twice. */
  lemma TwoPositions<T>(s: seq<T>, i: nat, j: nat)
    requires i < j < |s| && s[i] == s[j]
    ensures multiset(s)[s[i]] >= 2
  {
    assert s == s[..i] + [s[i]] + s[i + 1..j] + [s[j]] + s[j + 1..];
  }

  /** A sample of a population without duplicates has no duplicates either. */
  lemma SampleDistinct<T>(population: seq<T>, sample: seq<T>)
    requires NoDuplicates(population)
    requires multiset(sample) <= multiset(population)
    ensures NoDuplicates(sample)
  {
    forall i, j | 0 <= i < j < |sample|
      ensures sample[i] != sample[j]
    {
      DistinctOccursOnce(population, sample[i]);
      if sample[i] == sample[j] {
        TwoPositions(sample, i, j);
      }
    }
  }

  /**
    `sample_filenames(dir_, n)`: the listing of the whole tree under the default exclusion
    patterns, then `n` of its paths at distinct positions.
  */
  method SampleFilenames(walk: seq<WalkStep>, n: int, fnmatch: Matcher) returns (r: Result<seq<string>, SampleError>)
    ensures r.Failure? <==> n < 0 || n > |TreePaths(walk, ExcludePatterns, fnmatch)|
    ensures r.Success? ==> |r.value| == n
    ensures r.Success? ==> multiset(r.value) <= multiset(TreePaths(walk, ExcludePatterns, fnmatch))
    ensures r.Success? ==> forall p :: p in r.value ==> p in TreePaths(walk, ExcludePatterns, fnmatch)
  {
    var listing := ListDirectoryTree(walk, Some(ExcludePatterns), fnmatch);
    r := Sample(listing, n);
    if r.Success? {
      forall p | p in r.value ensures p in listing {
        assert p in multiset(r.value);
      }
    }
  }
}
