/** `main.py`: the decisions the command-line front end makes around the
    comparator. Argument parsing, printing and `sys.exit` are not modelled;
    what is printed before an exit is summarised by the outcome values. */
module Cli {
  import opened Wrappers
  import opened Text
  import opened Ordering
  import opened Paths
  import opened Images
  import opened ImageUtils
  import opened Comparator

  /** The extension set `compare_batch_images` keeps its own copy of. */
  const BATCH_FORMATS: set<string> := {".jpg", ".jpeg", ".png", ".bmp", ".tiff", ".tif"}

  /** The filter of `get_image_files`, applied to a bare directory entry. */
  predicate IsImageName(name: string)
  {
    Ext(Lower(name)) in BATCH_FORMATS
  }

  /** The batch filter and `validate_image_format` accept the same names. */
  lemma ImageNameAgreesWithValidation(name: string)
    ensures IsImageName(name) == ValidateImageFormat(name)
  {
  }

  /** Lower-casing commutes with joining: neither changes a separator. */
  lemma LowerJoin(dir: string, name: string)
    ensures Lower(Join(dir, name)) == Join(Lower(dir), Lower(name))
  {
    LowerAppend(dir, name);
    LowerAppend(dir, "/");
    LowerAppend(dir + "/", name);
    assert Lower("/") == "/";
    if |name| > 0 {
      assert Lower(name)[0] == LowerChar(name[0]);
    }
    if |dir| > 0 {
      assert Lower(dir)[|dir| - 1] == LowerChar(dir[|dir| - 1]);
    }
    assert StartsWith(name, "/") == StartsWith(Lower(name), "/") by {
      if |name| > 0 {
        assert name[..1] == "/" <==> name[0] == '/';
        assert Lower(name)[..1] == "/" <==> Lower(name)[0] == '/';
      }
    }
  }

  /** The full path built for a kept entry passes the comparator's own format
      check, so a batch never fails on "Unsupported image format". */
  lemma JoinedImageValidates(dir: string, name: string)
    requires '/' !in name
    ensures ValidateImageFormat(Join(dir, name)) == IsImageName(name)
  {
    LowerJoin(dir, name);
    LowerKeepsPunctuation(name, '/');
    assert '/' !in Lower(name);
    ExtOfJoin(Lower(dir), Lower(name));
  }

  /** The joined paths of the entries of a listing that `keep` accepts, in
      listing order. */
  function Kept(keep: string -> bool, folder: string, entries: seq<string>): (r: seq<string>)
    ensures |r| <= |entries|
  {
    if |entries| == 0 then []
    else
      var last := entries[|entries| - 1];
      Kept(keep, folder, entries[..|entries| - 1]) + (if keep(last) then [Join(folder, last)] else [])
  }

  /** `f` is the join of an accepted entry. */
  predicate KeptFrom(keep: string -> bool, folder: string, entries: seq<string>, f: string)
  {
    exists i :: 0 <= i < |entries| && keep(entries[i]) && f == Join(folder, entries[i])
  }

  /** A path is kept exactly when it is the join of an accepted entry. */
  lemma {:induction false} KeptMembers(keep: string -> bool, folder: string, entries: seq<string>)
    ensures forall f :: f in Kept(keep, folder, entries) <==> KeptFrom(keep, folder, entries, f)
  {
    if |entries| > 0 {
      var init := entries[..|entries| - 1];
      var last := entries[|entries| - 1];
      KeptMembers(keep, folder, init);
      forall f
        ensures f in Kept(keep, folder, entries) <==> KeptFrom(keep, folder, entries, f)
      {
        if KeptFrom(keep, folder, entries, f) {
          var i :| 0 <= i < |entries| && keep(entries[i]) && f == Join(folder, entries[i]);
          if i < |init| {
            assert init[i] == entries[i];
            assert KeptFrom(keep, folder, init, f);
          }
        }
        if f in Kept(keep, folder, init) {
          var i :| 0 <= i < |init| && keep(init[i]) && f == Join(folder, init[i]);
          assert entries[i] == init[i];
        }
      }
    }
  }

  /** The loop of `get_image_files`: the accepted entries, joined to the
      folder, in listing order. */
  method CollectMatching(keep: string -> bool, folder: string, entries: seq<string>) returns (kept: seq<string>)
    ensures kept == Kept(keep, folder, entries)
  {
    kept := [];
    var i := 0;
    while i < |entries|
      invariant 0 <= i <= |entries|
      invariant kept == Kept(keep, folder, entries[..i])
    {
      KeptStep(keep, folder, entries, i);
      if keep(entries[i]) {
        kept := kept + [Join(folder, entries[i])];
      }
      i := i + 1;
    }
    assert entries[..|entries|] == entries;
  }

  /** The entries `keep` accepts, joined to the folder, in sorted order. */
  method ListMatching(keep: string -> bool, folder: string, entries: seq<string>) returns (files: seq<string>)
    ensures Sorted(files)
    ensures multiset(files) == multiset(Kept(keep, folder, entries))
    ensures forall f :: f in files <==> KeptFrom(keep, folder, entries, f)
  {
    var kept := CollectMatching(keep, folder, entries);
    files := Sort(kept);
    KeptMembers(keep, folder, entries);
    SameMembers(files, kept);
  }

  /** Extending the listing by one entry appends that entry's path, if kept. */
  lemma KeptStep(keep: string -> bool, folder: string, entries: seq<string>, i: nat)
    requires i < |entries|
    ensures Kept(keep, folder, entries[..i + 1])
         == Kept(keep, folder, entries[..i]) + (if keep(entries[i]) then [Join(folder, entries[i])] else [])
  {
    assert entries[..i + 1][..i] == entries[..i];
  }

  /** Sequences with the same multiset have the same members. */
  lemma SameMembers(a: seq<string>, b: seq<string>)
    requires multiset(a) == multiset(b)
    ensures forall f :: f in a <==> f in b
  {
    forall f
      ensures f in a <==> f in b
    {
      assert f in a <==> f in multiset(a);
      assert f in b <==> f in multiset(b);
    }
  }

  /** `get_image_files(folder)` over the listing `entries`: the image entries,
      joined to the folder, in sorted order; the same list as the functional
      reference `ImageFiles`. */
  method GetImageFiles(folder: string, entries: seq<string>) returns (files: seq<string>)
    ensures Sorted(files)
    ensures multiset(files) == multiset(Kept(IsImageName, folder, entries))
    ensures forall f :: f in files <==> KeptFrom(IsImageName, folder, entries, f)
    ensures files == ImageFiles(folder, entries)
  {
    files := ListMatching(IsImageName, folder, entries);
    SortedUnique(files, ImageFiles(folder, entries));
  }

  /** The pairing loop of `compare_batch_images`: files matched by position;
      files beyond the shorter list are dropped. */
  method MakePairs(images1: seq<string>, images2: seq<string>) returns (pairs: seq<(string, string)>)
    ensures |pairs| <= |images1| && |pairs| <= |images2|
    ensures |pairs| == |images1| || |pairs| == |images2|
    ensures forall i :: 0 <= i < |pairs| ==> pairs[i] == (images1[i], images2[i])
  {
    pairs := [];
    var minCount := if |images1| <= |images2| then |images1| else |images2|;
    var i := 0;
    while i < minCount
      invariant 0 <= i <= minCount
      invariant |pairs| == i
      invariant forall k :: 0 <= k < i ==> pairs[k] == (images1[k], images2[k])
    {
      pairs := pairs + [(images1[i], images2[i])];
      i := i + 1;
    }
  }

  /** `sum(1 for r in results if 'error' not in r)`. */
  function SuccessCount(results: seq<PairResult>): (n: nat)
    ensures n <= |results|
  {
    if |results| == 0 then 0
    else SuccessCount(results[..|results| - 1]) + (if results[|results| - 1].Compared? then 1 else 0)
  }

  /** The number of entries carrying an error. */
  function ErrorCount(results: seq<PairResult>): nat
  {
    if |results| == 0 then 0
    else ErrorCount(results[..|results| - 1]) + (if results[|results| - 1].Errored? then 1 else 0)
  }

  /** Every entry is a success or an error, never both. */
  lemma {:induction false} CountsPartition(results: seq<PairResult>)
    ensures SuccessCount(results) + ErrorCount(results) == |results|
  {
    if |results| > 0 {
      CountsPartition(results[..|results| - 1]);
    }
  }

  /** The similarity percentages of the successful entries, in order. */
  function SuccessPercentages(results: seq<PairResult>): (xs: seq<real>)
    ensures |xs| == SuccessCount(results)
  {
    if |results| == 0 then []
    else
      var last := results[|results| - 1];
      SuccessPercentages(results[..|results| - 1]) + (if last.Compared? then [last.result.similarityPercentage] else [])
  }

  function Sum(xs: seq<real>): real
  {
    if |xs| == 0 then 0.0 else Sum(xs[..|xs| - 1]) + xs[|xs| - 1]
  }

  /** The counts `compare_batch_images` prints, and the average similarity it
      prints only when some comparison succeeded. */
  datatype BatchStats = BatchStats(total: nat, successful: nat, failed: nat, average: Option<real>)

  function Stats(results: seq<PairResult>): (s: BatchStats)
    ensures s.total == |results|
    ensures s.successful + s.failed == s.total
    ensures s.failed == ErrorCount(results)
    ensures s.average.Some? <==> s.successful > 0
    ensures s.average.Some? ==> s.average.value * (s.successful as real) == Sum(SuccessPercentages(results))
  {
    CountsPartition(results);
    var successful := SuccessCount(results);
    var average := if successful > 0 then Some(Sum(SuccessPercentages(results)) / successful as real) else None;
    BatchStats(|results|, successful, |results| - successful, average)
  }

  lemma {:induction false} SumBounds(xs: seq<real>, lo: real, hi: real)
    requires forall i :: 0 <= i < |xs| ==> lo <= xs[i] <= hi
    ensures |xs| as real * lo <= Sum(xs) <= |xs| as real * hi
  {
    if |xs| > 0 {
      SumBounds(xs[..|xs| - 1], lo, hi);
    }
  }

  /** The average lies between any bounds on the successful percentages. */
  lemma AverageWithinBounds(results: seq<PairResult>, lo: real, hi: real)
    requires forall i :: 0 <= i < |results| && results[i].Compared? ==>
      lo <= results[i].result.similarityPercentage <= hi
    requires SuccessCount(results) > 0
    ensures Stats(results).average.Some?
    ensures lo <= Stats(results).average.value <= hi
  {
    var xs := SuccessPercentages(results);
    SuccessPercentagesBounded(results, lo, hi);
    AverageOfBounded(xs, lo, hi);
    assert Stats(results).average == Some(Sum(xs) / (|xs| as real));
  }

  lemma AverageOfBounded(xs: seq<real>, lo: real, hi: real)
    requires |xs| > 0
    requires forall i :: 0 <= i < |xs| ==> lo <= xs[i] <= hi
    ensures lo <= Sum(xs) / (|xs| as real) <= hi
  {
    SumBounds(xs, lo, hi);
    DivideBounds(Sum(xs), |xs| as real, lo, hi);
  }

  lemma DivideBounds(total: real, n: real, lo: real, hi: real)
    requires n > 0.0
    requires n * lo <= total <= n * hi
    ensures lo <= total / n <= hi
  {
    assert total / n * n == total;
  }

  lemma {:induction false} SuccessPercentagesBounded(results: seq<PairResult>, lo: real, hi: real)
    requires forall i :: 0 <= i < |results| && results[i].Compared? ==>
      lo <= results[i].result.similarityPercentage <= hi
    ensures forall i :: 0 <= i < |SuccessPercentages(results)| ==> lo <= SuccessPercentages(results)[i] <= hi
  {
    if |results| > 0 {
      var init := results[..|results| - 1];
      assert forall i :: 0 <= i < |init| ==> init[i] == results[i];
      SuccessPercentagesBounded(init, lo, hi);
    }
  }

  /** A failed pair changes neither the success count nor the average. */
  lemma ErrorLeavesAverage(results: seq<PairResult>, entry: PairResult)
    requires entry.Errored?
    ensures SuccessCount(results + [entry]) == SuccessCount(results)
    ensures Stats(results + [entry]).average == Stats(results).average
  {
    assert (results + [entry])[..|results|] == results;
    assert SuccessPercentages(results + [entry]) == SuccessPercentages(results);
  }

  /** A successful pair with percentage `x` turns an average `a` over `n`
      successes into `(n * a + x) / (n + 1)`, and is the average itself when
      it is the first success. */
  lemma SuccessUpdatesAverage(results: seq<PairResult>, entry: PairResult)
    requires entry.Compared?
    ensures Stats(results + [entry]).successful == Stats(results).successful + 1
    ensures Stats(results).average.None? ==>
      Stats(results + [entry]).average == Some(entry.result.similarityPercentage)
    ensures Stats(results).average.Some? ==>
      Stats(results + [entry]).average
        == Some((Stats(results).successful as real * Stats(results).average.value + entry.result.similarityPercentage)
                / (Stats(results).successful + 1) as real)
  {
    var xs := SuccessPercentages(results);
    var x := entry.result.similarityPercentage;
    AverageAfter(results, entry);
    var before := Stats(results);
    var d := (before.successful + 1) as real;
    if before.average.None? {
      assert xs == [];
      assert (Sum(xs) + x) / d == x;
    } else {
      SumIsCountTimesAverage(results);
      SameNumerator(Sum(xs), before.successful as real * before.average.value, x, d);
    }
  }

  /** The sum of the successful percentages is their count times their average. */
  lemma SumIsCountTimesAverage(results: seq<PairResult>)
    requires Stats(results).average.Some?
    ensures Sum(SuccessPercentages(results)) == Stats(results).successful as real * Stats(results).average.value
  {
  }

  lemma SameNumerator(a: real, b: real, x: real, d: real)
    requires a == b && d > 0.0
    ensures (a + x) / d == (b + x) / d
  {
  }

  /** The average after a successful entry, in terms of the earlier sum. */
  lemma AverageAfter(results: seq<PairResult>, entry: PairResult)
    requires entry.Compared?
    ensures Stats(results + [entry]).successful == Stats(results).successful + 1
    ensures Stats(results + [entry]).average
      == Some((Sum(SuccessPercentages(results)) + entry.result.similarityPercentage) / (Stats(results).successful + 1) as real)
  {
    var all := results + [entry];
    var xs := SuccessPercentages(results);
    var x := entry.result.similarityPercentage;
    SuccessPercentagesAppend(results, entry);
    SumAppend(xs, x);
    assert SuccessCount(all) == |xs| + 1;
    assert Stats(all).average == Some(Sum(xs + [x]) / (|xs| + 1) as real);
  }

  /** Appending a successful entry appends its percentage. */
  lemma SuccessPercentagesAppend(results: seq<PairResult>, entry: PairResult)
    requires entry.Compared?
    ensures SuccessPercentages(results + [entry]) == SuccessPercentages(results) + [entry.result.similarityPercentage]
  {
    assert (results + [entry])[..|results|] == results;
  }

  lemma SumAppend(xs: seq<real>, x: real)
    ensures Sum(xs + [x]) == Sum(xs) + x
  {
    assert (xs + [x])[..|xs|] == xs;
  }

  /** `f"diff_pair_{n}.png"`. */
  function DiffFileName(pairNumber: nat): string
  {
    "diff_pair_" + NatToString(pairNumber) + ".png"
  }

  /** Different pairs get different diff file names. */
  lemma DiffFileNameInjective(m: nat, n: nat)
    requires DiffFileName(m) == DiffFileName(n)
    ensures m == n
  {
    var a := NatToString(m);
    var b := NatToString(n);
    assert DiffFileName(m)[10..|DiffFileName(m)| - 4] == a;
    assert DiffFileName(n)[10..|DiffFileName(n)| - 4] == b;
    NatToStringInjective(m, n);
  }

  /** A diff file name is itself a supported image name. */
  lemma DiffFileNameIsImage(n: nat)
    ensures IsImageName(DiffFileName(n))
  {
    var name := DiffFileName(n);
    var stem := "diff_pair_" + NatToString(n);
    assert name == stem + ".png";
    assert Lower(name) == Lower(stem) + Lower(".png") by { LowerAppend(stem, ".png"); }
    assert Lower(".png") == ".png";
    assert forall i :: 0 <= i < |stem| ==> stem[i] != '/' && stem[i] != '.' && LowerChar(stem[i]) == stem[i];
    assert Lower(stem) == stem;
    SupportedFormatsArePlain();
    ExtOfSimpleName(stem, ".png");
  }

  /** `os.path.join(output_dir, f"diff_pair_{i+1}.png")` for entry `i`. */
  function DiffPath(outputDir: string, i: nat): string
  {
    Join(outputDir, DiffFileName(i + 1))
  }

  /** Once `os.makedirs(output_dir)` has succeeded, every batch diff path has
      a directory part, so the as-written and the corrected save agree on it. */
  lemma BatchPathsAgree(disk: Disk, image: Image, outputDir: string, i: nat)
    requires WellFormed(image)
    requires MakeDirs(disk, outputDir).None?
    ensures SaveDiffImage(disk, image, DiffPath(outputDir, i)) == SaveDiffImageFixed(disk, image, DiffPath(outputDir, i))
  {
    var name := DiffFileName(i + 1);
    assert !StartsWith(name, "/") by {
      assert name[0] == 'd';
    }
    var path := DiffPath(outputDir, i);
    if outputDir[|outputDir| - 1] == '/' {
      assert path == outputDir + name;
      assert path[|outputDir| - 1] == '/';
    } else {
      assert path == outputDir + "/" + name;
      assert path[|outputDir|] == '/';
    }
    SaveVariantsAgree(disk, image, path);
  }

  /** Entries at different positions never write to the same file. */
  lemma DiffPathInjective(outputDir: string, i: nat, j: nat)
    requires DiffPath(outputDir, i) == DiffPath(outputDir, j)
    ensures i == j
  {
    var a := DiffFileName(i + 1);
    var b := DiffFileName(j + 1);
    assert !StartsWith(a, "/") && !StartsWith(b, "/") by {
      assert a[0] == 'd' && b[0] == 'd';
    }
    var pre := if outputDir == "" || outputDir[|outputDir| - 1] == '/' then outputDir else outputDir + "/";
    assert Join(outputDir, a) == pre + a;
    assert Join(outputDir, b) == pre + b;
    assert a == (pre + a)[|pre|..];
    assert b == (pre + b)[|pre|..];
    DiffFileNameInjective(i + 1, j + 1);
  }

  /** The diff files the saving loop writes, in order: one for each entry
      without an error (every such entry has a diff image). */
  function DiffTargets(outputDir: string, results: seq<PairResult>): (r: seq<string>)
    ensures |r| == SuccessCount(results)
  {
    if |results| == 0 then []
    else
      var n := |results| - 1;
      DiffTargets(outputDir, results[..n]) + (if results[n].Compared? then [DiffPath(outputDir, n)] else [])
  }

  /** The targets are exactly the diff paths of the successful entries. */
  lemma {:induction false} DiffTargetsMembers(outputDir: string, results: seq<PairResult>)
    ensures forall i :: 0 <= i < |results| && results[i].Compared? ==> DiffPath(outputDir, i) in DiffTargets(outputDir, results)
    ensures forall p :: p in DiffTargets(outputDir, results) ==>
      exists i :: 0 <= i < |results| && results[i].Compared? && p == DiffPath(outputDir, i)
  {
    if |results| > 0 {
      var n := |results| - 1;
      var init := results[..n];
      DiffTargetsMembers(outputDir, init);
      var before := DiffTargets(outputDir, init);
      var r := DiffTargets(outputDir, results);
      assert r == before + (if results[n].Compared? then [DiffPath(outputDir, n)] else []);
      forall i | 0 <= i < |results| && results[i].Compared?
        ensures DiffPath(outputDir, i) in r
      {
        if i < n {
          assert init[i] == results[i];
        }
      }
      forall p | p in r
        ensures exists i :: 0 <= i < |results| && results[i].Compared? && p == DiffPath(outputDir, i)
      {
        if p in before {
          var i :| 0 <= i < |init| && init[i].Compared? && p == DiffPath(outputDir, i);
          assert results[i] == init[i];
        }
      }
    }
  }

  /** Entry `i` gets a diff file exactly when it has no error. */
  lemma DiffWrittenIffSuccess(outputDir: string, results: seq<PairResult>, i: nat)
    requires i < |results|
    ensures DiffPath(outputDir, i) in DiffTargets(outputDir, results) <==> results[i].Compared?
  {
    DiffTargetsMembers(outputDir, results);
    if DiffPath(outputDir, i) in DiffTargets(outputDir, results) {
      var j :| 0 <= j < |results| && results[j].Compared? && DiffPath(outputDir, i) == DiffPath(outputDir, j);
      DiffPathInjective(outputDir, i, j);
    }
  }

  /** The error of a save, if it failed. */
  function ErrorOf(r: Result<string>): Option<string>
  {
    if r.Failure? then Some(r.error) else None
  }

  /** One call of the corrected `save_diff_image`, reporting only its error. */
  method SaveDiff(disk: Disk, image: Image, path: string) returns (err: Option<string>)
    requires WellFormed(image)
    ensures err == ErrorOf(SaveDiffImageFixed(disk, image, path))
  {
    err := ErrorOf(SaveDiffImageFixed(disk, image, path));
  }

  /** Entry `i`'s diff, if it has one, goes through `save_diff_image` to its
      path without an exception (which does not mean the file exists: the
      boolean result of `cv2.imwrite` is ignored). */
  predicate DiffSaved(disk: Disk, outputDir: string, results: seq<PairResult>, i: nat)
    requires i < |results|
  {
    results[i].Compared? ==>
      && WellFormed(results[i].result.diffImage)
      && SaveDiffImageFixed(disk, results[i].result.diffImage, DiffPath(outputDir, i)).Success?
  }

  /** The diffs of the first `n` entries were all saved without an exception. */
  predicate AllSaved(disk: Disk, outputDir: string, results: seq<PairResult>, n: nat)
    requires n <= |results|
  {
    forall j :: 0 <= j < n ==> DiffSaved(disk, outputDir, results, j)
  }

  lemma AllSavedStep(disk: Disk, outputDir: string, results: seq<PairResult>, n: nat)
    requires n < |results|
    requires AllSaved(disk, outputDir, results, n) && DiffSaved(disk, outputDir, results, n)
    ensures AllSaved(disk, outputDir, results, n + 1)
  {
  }

  /** Entry `k` is where saving stops: every earlier diff was saved without
      an exception and the save of entry `k`'s diff raised. */
  predicate FirstFailedSave(disk: Disk, outputDir: string, results: seq<PairResult>, k: nat)
  {
    && k < |results|
    && !DiffSaved(disk, outputDir, results, k)
    && forall j :: 0 <= j < k ==> DiffSaved(disk, outputDir, results, j)
  }

  /** The saving loop of `compare_batch_images`: one `save_diff_image` per
      successful entry, in order, stopping at the first error. */
  method SaveDiffs(disk: Disk, outputDir: string, results: seq<PairResult>) returns (saved: seq<string>, err: Option<string>)
    requires forall i :: 0 <= i < |results| && results[i].Compared? ==> WellFormed(results[i].result.diffImage)
    ensures saved <= DiffTargets(outputDir, results)
    ensures err.None? <==> forall i :: 0 <= i < |results| ==> DiffSaved(disk, outputDir, results, i)
    ensures err.None? ==> saved == DiffTargets(outputDir, results)
    ensures err.Some? ==> |saved| < |DiffTargets(outputDir, results)|
    ensures err.Some? ==> exists k ::
      && 0 <= k < |results|
      && FirstFailedSave(disk, outputDir, results, k)
      && saved == DiffTargets(outputDir, results[..k])
      && err == ErrorOf(SaveDiffImageFixed(disk, results[k].result.diffImage, DiffPath(outputDir, k)))
    ensures forall i :: 0 <= i < |results| && DiffPath(outputDir, i) in saved ==>
      results[i].Compared? && DiffSaved(disk, outputDir, results, i)
  {
    var k;
    saved, err, k := SaveUntilFailure(disk, outputDir, results);
    if err.Some? {
      FailedSaveReported(disk, outputDir, results, k, saved, err);
    } else {
      assert results[..|results|] == results;
      SavedWereWritten(disk, outputDir, results, |results|);
    }
  }

  /** The loop itself: it saves the diffs of the first `k` entries and stops
      either after the last entry or at the save that raised. */
  method SaveUntilFailure(disk: Disk, outputDir: string, results: seq<PairResult>)
    returns (saved: seq<string>, err: Option<string>, k: nat)
    requires forall i :: 0 <= i < |results| && results[i].Compared? ==> WellFormed(results[i].result.diffImage)
    ensures k <= |results|
    ensures saved == DiffTargets(outputDir, results[..k])
    ensures AllSaved(disk, outputDir, results, k)
    ensures err.None? ==> k == |results|
    ensures err.Some? ==> k < |results| && results[k].Compared?
    ensures err.Some? ==>
      err == ErrorOf(SaveDiffImageFixed(disk, results[k].result.diffImage, DiffPath(outputDir, k)))
  {
    saved := [];
    err := None;
    var i := 0;
    while i < |results|
      invariant 0 <= i <= |results|
      invariant saved == DiffTargets(outputDir, results[..i])
      invariant AllSaved(disk, outputDir, results, i)
    {
      var failed;
      saved, failed := SaveEntry(disk, outputDir, results, i, saved);
      if failed.Some? {
        return saved, failed, i;
      }
      AllSavedStep(disk, outputDir, results, i);
      i := i + 1;
    }
    k := i;
  }

  /** One pass of the saving loop: entry `i`'s diff, if it has one, is saved
      and its path appended; a raised error is handed back instead. */
  method SaveEntry(disk: Disk, outputDir: string, results: seq<PairResult>, i: nat, saved: seq<string>)
    returns (savedAfter: seq<string>, failed: Option<string>)
    requires i < |results|
    requires results[i].Compared? ==> WellFormed(results[i].result.diffImage)
    requires saved == DiffTargets(outputDir, results[..i])
    ensures failed.None? ==> savedAfter == DiffTargets(outputDir, results[..i + 1])
    ensures failed.None? ==> DiffSaved(disk, outputDir, results, i)
    ensures failed.Some? ==> savedAfter == saved && results[i].Compared?
    ensures failed.Some? ==>
      failed == ErrorOf(SaveDiffImageFixed(disk, results[i].result.diffImage, DiffPath(outputDir, i)))
  {
    TargetsStep(outputDir, results, i);
    savedAfter := saved;
    failed := None;
    if results[i].Compared? {
      var path := DiffPath(outputDir, i);
      failed := SaveDiff(disk, results[i].result.diffImage, path);
      if failed.None? {
        assert DiffSaved(disk, outputDir, results, i);
        savedAfter := saved + [path];
      }
    }
  }

  /** Where the saving loop stops at entry `k`: the diffs listed so far are a
      proper prefix of the targets, all of them saved without an exception,
      and the error is that of entry `k`'s save. */
  lemma FailedSaveReported(disk: Disk, outputDir: string, results: seq<PairResult>, k: nat,
                           saved: seq<string>, err: Option<string>)
    requires forall i :: 0 <= i < |results| && results[i].Compared? ==> WellFormed(results[i].result.diffImage)
    requires k < |results| && results[k].Compared?
    requires forall j :: 0 <= j < k ==> DiffSaved(disk, outputDir, results, j)
    requires saved == DiffTargets(outputDir, results[..k])
    requires err == ErrorOf(SaveDiffImageFixed(disk, results[k].result.diffImage, DiffPath(outputDir, k)))
    requires err.Some?
    ensures saved <= DiffTargets(outputDir, results)
    ensures |saved| < |DiffTargets(outputDir, results)|
    ensures FirstFailedSave(disk, outputDir, results, k)
    ensures forall i :: 0 <= i < |results| && DiffPath(outputDir, i) in saved ==>
      results[i].Compared? && DiffSaved(disk, outputDir, results, i)
  {
    TargetsStep(outputDir, results, k);
    PrefixOfTargets(outputDir, results, k + 1);
    SavedWereWritten(disk, outputDir, results, k);
  }

  /** The targets of the first `k` entries belong to those entries' successful
      comparisons, so when their saves all went through without an exception,
      every path listed did. */
  lemma SavedWereWritten(disk: Disk, outputDir: string, results: seq<PairResult>, k: nat)
    requires k <= |results|
    requires forall j :: 0 <= j < k ==> DiffSaved(disk, outputDir, results, j)
    ensures forall i :: 0 <= i < |results| && DiffPath(outputDir, i) in DiffTargets(outputDir, results[..k]) ==>
      results[i].Compared? && DiffSaved(disk, outputDir, results, i)
  {
    var prefix := results[..k];
    DiffTargetsMembers(outputDir, prefix);
    forall i | 0 <= i < |results| && DiffPath(outputDir, i) in DiffTargets(outputDir, prefix)
      ensures results[i].Compared? && DiffSaved(disk, outputDir, results, i)
    {
      var j :| 0 <= j < |prefix| && prefix[j].Compared? && DiffPath(outputDir, i) == DiffPath(outputDir, j);
      DiffPathInjective(outputDir, i, j);
    }
  }

  /** What the saving loop reports, as `SaveDiffs` states it. */
  predicate SavingReported(disk: Disk, outputDir: string, results: seq<PairResult>, saved: seq<string>, err: Option<string>)
    requires forall i :: 0 <= i < |results| && results[i].Compared? ==> WellFormed(results[i].result.diffImage)
  {
    && saved <= DiffTargets(outputDir, results)
    && (err.None? <==> forall i :: 0 <= i < |results| ==> DiffSaved(disk, outputDir, results, i))
    && (err.None? ==> saved == DiffTargets(outputDir, results))
    && (err.Some? ==> exists k ::
          && 0 <= k < |results|
          && FirstFailedSave(disk, outputDir, results, k)
          && saved == DiffTargets(outputDir, results[..k])
          && err == ErrorOf(SaveDiffImageFixed(disk, results[k].result.diffImage, DiffPath(outputDir, k))))
  }

  /** Extending the prefix by one entry adds that entry's target, if any. */
  lemma TargetsStep(outputDir: string, results: seq<PairResult>, i: nat)
    requires i < |results|
    ensures DiffTargets(outputDir, results[..i + 1])
         == DiffTargets(outputDir, results[..i]) + (if results[i].Compared? then [DiffPath(outputDir, i)] else [])
  {
    assert results[..i + 1][..i] == results[..i];
  }

  /** The targets of a prefix of the results are a prefix of all targets. */
  lemma {:induction false} PrefixOfTargets(outputDir: string, results: seq<PairResult>, k: nat)
    requires k <= |results|
    ensures DiffTargets(outputDir, results[..k]) <= DiffTargets(outputDir, results)
    decreases |results| - k
  {
    if k < |results| {
      PrefixOfTargets(outputDir, results, k + 1);
      assert results[..k + 1][..k] == results[..k];
    } else {
      assert results[..k] == results;
    }
  }

  /** What `compare_batch_images` ends with: an early exit with its message,
      or the batch results, the printed counts, the diff paths saved without
      an exception and the error that stopped the saving, if any. */
  datatype BatchOutcome =
    | Aborted(message: string)
    | Reported(results: seq<PairResult>, stats: BatchStats, saved: seq<string>, saveError: Option<string>)

  /** `compare_batch_images(folder1, folder2, output_dir)`. */
  method CompareBatchImages(lib: Library, disk: Disk, folder1: string, folder2: string, outputDir: string)
    returns (outcome: BatchOutcome)
    requires LibraryContract(lib) && DiskContract(disk)
    ensures outcome.Aborted? <==> FindPairFiles(disk, folder1, folder2).Failure?
    ensures outcome.Aborted? ==> outcome.message == FindPairFiles(disk, folder1, folder2).error
    ensures outcome.Reported? ==>
      var images := FindPairFiles(disk, folder1, folder2).value;
      && 1 <= |outcome.results| <= |images.0|
      && |outcome.results| <= |images.1|
      && (|outcome.results| == |images.0| || |outcome.results| == |images.1|)
      && (forall i :: 0 <= i < |outcome.results| ==>
            EntryMatches(lib, disk, i, (images.0[i], images.1[i]), outcome.results[i]))
    ensures outcome.Reported? ==> outcome.stats == Stats(outcome.results)
    ensures outcome.Reported? ==> forall i :: 0 <= i < |outcome.results| && outcome.results[i].Compared? ==>
      WellFormed(outcome.results[i].result.diffImage)
    ensures outcome.Reported? && MakeDirs(disk, outputDir).Some? ==>
      outcome.saved == [] && outcome.saveError == MakeDirs(disk, outputDir)
    ensures outcome.Reported? && MakeDirs(disk, outputDir).None? ==>
      SavingReported(disk, outputDir, outcome.results, outcome.saved, outcome.saveError)
  {
    var found := FindPairFiles(disk, folder1, folder2);
    match found
    case Failure(e) =>
      outcome := Aborted(e);
    case Success(images) =>
      outcome := ProcessPairs(lib, disk, images.0, images.1, outputDir);
  }

  /** The checks `compare_batch_images` makes before comparing, in its order:
      both folders exist, both can be listed, then each has image files. A
      listing error is caught by the outer handler and printed after "Error: ". */
  function FindPairFiles(disk: Disk, folder1: string, folder2: string): (r: Result<(seq<string>, seq<string>)>)
    ensures !disk.pathExists(folder1) ==> r == Failure("Error: Folder not found: " + folder1)
    ensures disk.pathExists(folder1) && !disk.pathExists(folder2) ==> r == Failure("Error: Folder not found: " + folder2)
    ensures disk.pathExists(folder1) && disk.pathExists(folder2) && disk.listdir(folder1).Failure? ==>
      r == Failure("Error: " + disk.listdir(folder1).error)
    ensures (disk.pathExists(folder1) && disk.pathExists(folder2)
             && disk.listdir(folder1).Success? && disk.listdir(folder2).Failure?) ==>
      r == Failure("Error: " + disk.listdir(folder2).error)
    ensures (disk.pathExists(folder1) && disk.pathExists(folder2)
             && disk.listdir(folder1).Success? && disk.listdir(folder2).Success?) ==>
      var images1 := ImageFiles(folder1, disk.listdir(folder1).value);
      var images2 := ImageFiles(folder2, disk.listdir(folder2).value);
      && (|images1| == 0 ==> r == Failure("Error: No supported image files found in " + folder1))
      && (|images1| > 0 && |images2| == 0 ==> r == Failure("Error: No supported image files found in " + folder2))
      && (|images1| > 0 && |images2| > 0 ==> r == Success((images1, images2)))
  {
    if !disk.pathExists(folder1) then Failure("Error: Folder not found: " + folder1)
    else if !disk.pathExists(folder2) then Failure("Error: Folder not found: " + folder2)
    else
      match disk.listdir(folder1)
      case Failure(e) => Failure("Error: " + e)
      case Success(entries1) =>
        match disk.listdir(folder2)
        case Failure(e) => Failure("Error: " + e)
        case Success(entries2) =>
          var images1 := ImageFiles(folder1, entries1);
          var images2 := ImageFiles(folder2, entries2);
          if |images1| == 0 then Failure("Error: No supported image files found in " + folder1)
          else if |images2| == 0 then Failure("Error: No supported image files found in " + folder2)
          else Success((images1, images2))
  }

  /** The sorted image files of a folder listing. */
  function ImageFiles(folder: string, entries: seq<string>): (files: seq<string>)
    ensures Sorted(files)
    ensures multiset(files) == multiset(Kept(IsImageName, folder, entries))
  {
    Sort(Kept(IsImageName, folder, entries))
  }

  /** Every file of a folder's listing passes `validate_image_format`, so a
      batch never fails on "Unsupported image format". */
  lemma ImageFilesValidate(disk: Disk, folder: string, k: nat)
    requires DiskContract(disk)
    requires disk.listdir(folder).Success?
    requires k < |ImageFiles(folder, disk.listdir(folder).value)|
    ensures ValidateImageFormat(ImageFiles(folder, disk.listdir(folder).value)[k])
  {
    var entries := disk.listdir(folder).value;
    var i := KeptSource(IsImageName, folder, entries, ImageFiles(folder, entries), k);
    JoinedImageValidates(folder, entries[i]);
  }

  /** The entry a kept path comes from, in any arrangement of the kept paths. */
  lemma KeptSource(keep: string -> bool, folder: string, entries: seq<string>, files: seq<string>, k: nat) returns (i: nat)
    requires multiset(files) == multiset(Kept(keep, folder, entries))
    requires k < |files|
    ensures i < |entries| && keep(entries[i])
    ensures files[k] == Join(folder, entries[i])
  {
    assert files[k] in multiset(Kept(keep, folder, entries));
    assert files[k] in Kept(keep, folder, entries);
    KeptMembers(keep, folder, entries);
    assert KeptFrom(keep, folder, entries, files[k]);
    i :| 0 <= i < |entries| && keep(entries[i]) && files[k] == Join(folder, entries[i]);
  }

  /** The second half of `compare_batch_images`: pair the files, compare
      every pair, count, create the output directory and save the diffs. */
  method ProcessPairs(lib: Library, disk: Disk, images1: seq<string>, images2: seq<string>, outputDir: string)
    returns (outcome: BatchOutcome)
    requires LibraryContract(lib) && DiskContract(disk)
    requires |images1| > 0 && |images2| > 0
    ensures outcome.Reported?
    ensures 1 <= |outcome.results| <= |images1| && |outcome.results| <= |images2|
    ensures |outcome.results| == |images1| || |outcome.results| == |images2|
    ensures forall i :: 0 <= i < |outcome.results| ==>
      EntryMatches(lib, disk, i, (images1[i], images2[i]), outcome.results[i])
    ensures outcome.stats == Stats(outcome.results)
    ensures forall i :: 0 <= i < |outcome.results| && outcome.results[i].Compared? ==>
      WellFormed(outcome.results[i].result.diffImage)
    ensures MakeDirs(disk, outputDir).Some? ==> outcome.saved == [] && outcome.saveError == MakeDirs(disk, outputDir)
    ensures MakeDirs(disk, outputDir).None? ==>
      SavingReported(disk, outputDir, outcome.results, outcome.saved, outcome.saveError)
  {
    var pairs := MakePairs(images1, images2);
    var results, _ := CompareMultiplePairs(NEW_COMPARATOR, lib, disk, pairs);
    BatchEntries(lib, disk, pairs, results);
    var stats := Stats(results);
    var made := MakeDirs(disk, outputDir);
    if made.Some? {
      return Reported(results, stats, [], made);
    }
    var saved, err := SaveDiffs(disk, outputDir, results);
    outcome := Reported(results, stats, saved, err);
  }

  /** The diff of every successful batch entry is a well-formed image, the
      precondition of saving it. */
  lemma BatchEntries(lib: Library, disk: Disk, pairs: seq<(string, string)>, results: seq<PairResult>)
    requires LibraryContract(lib) && DiskContract(disk)
    requires |results| == |pairs|
    requires forall i :: 0 <= i < |pairs| ==> EntryMatches(lib, disk, i, pairs[i], results[i])
    ensures forall i :: 0 <= i < |results| && results[i].Compared? ==> WellFormed(results[i].result.diffImage)
  {
    forall i | 0 <= i < |results| && results[i].Compared?
      ensures WellFormed(results[i].result.diffImage)
    {
      EntryMatchesMeans(lib, disk, i, pairs[i], results[i]);
    }
  }

  /** Python truthiness of an optional string argument. */
  predicate Truthy(s: Option<string>)
  {
    s.Some? && s.value != ""
  }

  /** The values `argparse` produced. */
  datatype Arguments = Arguments(
    legacyImage1: Option<string>,
    legacyImage2: Option<string>,
    saveDiff: bool,
    mode: Option<string>,
    image1: string,
    image2: string,
    output: string,
    folder1: string,
    folder2: string,
    outputDir: string)

  /** What `main` goes on to do. */
  datatype Command =
    | RunSingle(image1: string, image2: string, saveDiff: bool, outputPath: Option<string>)
    | RunBatch(folder1: string, folder2: string, outputDir: string)
    | ShowHelpAndExit

  /** Both legacy options are given (and non-empty). */
  predicate LegacyRequested(args: Arguments)
  {
    Truthy(args.legacyImage1) && Truthy(args.legacyImage2)
  }

  /** The fallback of `main`: at least two arguments, neither of the first two an option. */
  predicate BareArguments(argv: seq<string>)
  {
    |argv| >= 3 && !StartsWith(argv[1], "--") && !StartsWith(argv[2], "--")
  }

  /** The dispatch of `main`: legacy options first, then the sub-command,
      then two bare arguments, and help (exit status 1) otherwise. */
  function Dispatch(args: Arguments, argv: seq<string>): (cmd: Command)
    ensures LegacyRequested(args) ==>
      cmd == RunSingle(args.legacyImage1.value, args.legacyImage2.value, args.saveDiff, None)
    ensures !LegacyRequested(args) && args.mode == Some("single") ==>
      cmd == RunSingle(args.image1, args.image2, args.saveDiff, Some(args.output))
    ensures !LegacyRequested(args) && args.mode == Some("batch") ==>
      cmd == RunBatch(args.folder1, args.folder2, args.outputDir)
    ensures !LegacyRequested(args) && args.mode != Some("single") && args.mode != Some("batch") && BareArguments(argv) ==>
      cmd == RunSingle(argv[1], argv[2], "--save-diff" in argv, None)
    ensures cmd.ShowHelpAndExit? <==>
      !LegacyRequested(args) && args.mode != Some("single") && args.mode != Some("batch") && !BareArguments(argv)
    ensures cmd.RunBatch? <==> !LegacyRequested(args) && args.mode == Some("batch")
  {
    if LegacyRequested(args) then
      RunSingle(args.legacyImage1.value, args.legacyImage2.value, args.saveDiff, None)
    else if args.mode == Some("single") then
      RunSingle(args.image1, args.image2, args.saveDiff, Some(args.output))
    else if args.mode == Some("batch") then
      RunBatch(args.folder1, args.folder2, args.outputDir)
    else if |argv| >= 3 && !(exists k :: 1 <= k < 3 && StartsWith(argv[k], "--")) then
      RunSingle(argv[1], argv[2], "--save-diff" in argv, None)
    else
      ShowHelpAndExit
  }

  /** The condition under which `compare_single_images` saves a second copy
      of the diff at the user's path. */
  predicate SavesToCustomPath(saveDiff: bool, outputPath: Option<string>)
  {
    saveDiff && Truthy(outputPath) && outputPath.value != DEFAULT_DIFF_PATH
  }

  /** What `compare_single_images` ends with: an error message (and exit
      status 1), or the printed summary and the custom diff path written. */
  datatype SingleOutcome =
    | SingleFailed(message: string)
    | SingleDone(summary: string, customSaved: Option<string>)

  /** The success path of `compare_single_images`: the summary of the stored
      record, then the extra copy at a custom path. */
  function ReportSingle(disk: Disk, comparator: ImageComparator, saveDiff: bool, outputPath: Option<string>,
                        percent: real -> string): (r: SingleOutcome)
    requires comparator.results.Some?
    requires WellFormed(comparator.results.value.diffImage)
    requires comparator.results.value.diffPath == if saveDiff then Some(DEFAULT_DIFF_PATH) else None
    ensures r.SingleDone? ==> r.summary == GetSummary(comparator, percent) && r.summary != NO_RESULTS_MESSAGE
    ensures r.SingleDone? && saveDiff ==> EndsWith(r.summary, SAVED_PREFIX + DEFAULT_DIFF_PATH + "\n")
    ensures r.SingleDone? ==> (r.customSaved.Some? <==> SavesToCustomPath(saveDiff, outputPath))
    ensures r.SingleDone? && r.customSaved.Some? ==> r.customSaved == outputPath
    ensures r.SingleFailed? <==>
      SavesToCustomPath(saveDiff, outputPath)
      && SaveDiffImageFixed(disk, comparator.results.value.diffImage, outputPath.value).Failure?
  {
    var results := comparator.results.value;
    assert saveDiff ==> HasDiffPath(results) by {
      DefaultDiffPathHasDirectory();
    }
    var summary := GetSummary(comparator, percent);
    if SavesToCustomPath(saveDiff, outputPath) then
      match ErrorOf(SaveDiffImageFixed(disk, results.diffImage, outputPath.value))
      case Some(e) => SingleFailed("Error: " + e)
      case None => SingleDone(summary, outputPath)
    else
      SingleDone(summary, None)
  }

  /** The success path of `compare_single_images` as written: the custom copy
      goes through `save_diff_image` itself, which fails on a bare file name. */
  function ReportSingleAsWritten(disk: Disk, comparator: ImageComparator, saveDiff: bool, outputPath: Option<string>,
                                 percent: real -> string): (r: SingleOutcome)
    requires comparator.results.Some?
    requires WellFormed(comparator.results.value.diffImage)
    requires comparator.results.value.diffPath == if saveDiff then Some(DEFAULT_DIFF_PATH) else None
    ensures !SavesToCustomPath(saveDiff, outputPath) || '/' in outputPath.value ==>
      r == ReportSingle(disk, comparator, saveDiff, outputPath, percent)
    ensures SavesToCustomPath(saveDiff, outputPath) && '/' !in outputPath.value ==> r.SingleFailed?
  {
    var image := comparator.results.value.diffImage;
    if SavesToCustomPath(saveDiff, outputPath) then
      SaveVariantsOnPath(disk, image, outputPath.value);
      match ErrorOf(SaveDiffImage(disk, image, outputPath.value))
      case Some(e) => SingleFailed("Error: " + e)
      case None => SingleDone(GetSummary(comparator, percent), outputPath)
    else
      ReportSingle(disk, comparator, saveDiff, outputPath, percent)
  }

  /** Which of the two save variants decides the custom copy. */
  lemma SaveVariantsOnPath(disk: Disk, image: Image, path: string)
    requires WellFormed(image)
    ensures '/' in path ==> SaveDiffImage(disk, image, path) == SaveDiffImageFixed(disk, image, path)
    ensures '/' !in path ==> SaveDiffImage(disk, image, path).Failure?
  {
    if '/' in path {
      SaveVariantsAgree(disk, image, path);
    } else {
      SaveBareNameFails(disk, image, path);
    }
  }

  /** `single a.png b.png --save-diff -o out.png`: as written the run ends in
      an error after the summary, while the corrected save writes the copy
      whenever `cv2.imwrite` succeeds. */
  lemma SingleBareOutputCounterexample(disk: Disk, comparator: ImageComparator, percent: real -> string)
    requires comparator.results.Some?
    requires WellFormed(comparator.results.value.diffImage)
    requires comparator.results.value.diffPath == Some(DEFAULT_DIFF_PATH)
    requires ToBgr(comparator.results.value.diffImage).Success?
    requires disk.imwrite("out.png", ToBgr(comparator.results.value.diffImage).value).None?
    ensures ReportSingleAsWritten(disk, comparator, true, Some("out.png"), percent).SingleFailed?
    ensures ReportSingle(disk, comparator, true, Some("out.png"), percent) ==
      SingleDone(GetSummary(comparator, percent), Some("out.png"))
  {
    assert SavesToCustomPath(true, Some("out.png"));
    SaveBareNameCounterexample(disk, comparator.results.value.diffImage);
  }

  /** `compare_single_images(image1_path, image2_path, save_diff, output_path)`,
      with the custom copy written by the corrected `save_diff_image`. */
  function CompareSingleImages(lib: Library, disk: Disk, path1: string, path2: string, saveDiff: bool,
                               outputPath: Option<string>, percent: real -> string): (r: SingleOutcome)
    requires LibraryContract(lib) && DiskContract(disk)
    ensures !disk.pathExists(path1) ==> r == SingleFailed("Error: Image file not found: " + path1)
    ensures disk.pathExists(path1) && !disk.pathExists(path2) ==> r == SingleFailed("Error: Image file not found: " + path2)
    ensures disk.pathExists(path1) && disk.pathExists(path2) && CompareCore(lib, disk, path1, path2, saveDiff).Failure? ==>
      r == SingleFailed("Error: " + ERROR_PREFIX + CompareCore(lib, disk, path1, path2, saveDiff).error)
    ensures r.SingleDone? ==> CompareCore(lib, disk, path1, path2, saveDiff).Success? && r.summary != NO_RESULTS_MESSAGE
    ensures r.SingleDone? && saveDiff ==> EndsWith(r.summary, SAVED_PREFIX + DEFAULT_DIFF_PATH + "\n")
    ensures r.SingleDone? ==> (r.customSaved.Some? <==> SavesToCustomPath(saveDiff, outputPath))
    ensures r.SingleDone? && r.customSaved.Some? ==> r.customSaved == outputPath
    ensures disk.pathExists(path1) && disk.pathExists(path2) && CompareCore(lib, disk, path1, path2, saveDiff).Success? ==>
      r == ReportSingle(disk, ImageComparator(Some(CompareCore(lib, disk, path1, path2, saveDiff).value)),
                        saveDiff, outputPath, percent)
  {
    if !disk.pathExists(path1) then SingleFailed("Error: Image file not found: " + path1)
    else if !disk.pathExists(path2) then SingleFailed("Error: Image file not found: " + path2)
    else
      var (outcome, comparator) := CompareImages(NEW_COMPARATOR, lib, disk, path1, path2, saveDiff);
      match outcome
      case Failure(e) =>
        assert "Error: " + e == "Error: " + ERROR_PREFIX + CompareCore(lib, disk, path1, path2, saveDiff).error;
        SingleFailed("Error: " + e)
      case Success(results) => ReportSingle(disk, comparator, saveDiff, outputPath, percent)
  }
}
