/** The renaming script: the filter that picks the frame files, the per-name
    zero-padding transform, the pad width derived from the number of frames,
    and the rename pass over the filtered names. The file system is left out:
    the directory listing (already restricted to regular files) is a
    parameter, and the renames the pass performs are returned as a log of
    (old name, new name) pairs in the order they happen. */
module RenameDemoMovieFiles {
  import opened PyStrings

  /** The two errors the script raises itself (both as `ValueError`). */
  datatype Error =
    | NoMatchingFiles(basename: string, folder: string)
    | NotANumberSequence(filename: string, residue: string)

  datatype Result<T> = Ok(value: T) | Err(error: Error)

  /** One `os.rename(source, target)` call. */
  datatype Rename = Rename(source: string, target: string)

  /** How a run ends: every matching file renamed, or stopped by an error
      after the renames in `renames` were already performed (no rollback). */
  datatype Outcome =
    | Completed(renames: seq<Rename>)
    | Aborted(renames: seq<Rename>, error: Error)

  // ---------------------------------------------------------------------
  // Discovery filter

  predicate IsMatching(name: string, basename: string, ext: string) {
    StartsWith(name, basename) && EndsWith(name, ext)
  }

  /** The names of `files` that start with `basename` and end with `ext`,
      in their original order. */
  function Matching(files: seq<string>, basename: string, ext: string): (r: seq<string>)
    ensures |r| <= |files|
    ensures forall i :: 0 <= i < |r| ==> IsMatching(r[i], basename, ext)
  {
    if files == [] then []
    else
      var last := files[|files| - 1];
      Matching(files[..|files| - 1], basename, ext)
        + (if IsMatching(last, basename, ext) then [last] else [])
  }

  /** The filter loop: keeps, in order, the names that start with the base
      name and end with the extension. */
  method GetMatchingTgaFiles(filelist: seq<string>, basename: string, ext: string)
    returns (output: seq<string>)
    ensures output == Matching(filelist, basename, ext)
  {
    output := [];
    for i := 0 to |filelist|
      invariant output == Matching(filelist[..i], basename, ext)
    {
      var file := filelist[i];
      assert filelist[..i + 1][..i] == filelist[..i];
      if StartsWith(file, basename) && EndsWith(file, ext) {
        output := output + [file];
      }
    }
    assert filelist[..|filelist|] == filelist;
  }

  /** Filtering a concatenation filters each part: the relative order of
      the kept names is the order of the input. */
  lemma {:induction false} MatchingConcat(a: seq<string>, b: seq<string>, basename: string, ext: string)
    ensures Matching(a + b, basename, ext) == Matching(a, basename, ext) + Matching(b, basename, ext)
    decreases |b|
  {
    if b != [] {
      var c := a + b;
      assert c[..|c| - 1] == a + b[..|b| - 1];
      assert c[|c| - 1] == b[|b| - 1];
      MatchingConcat(a, b[..|b| - 1], basename, ext);
    } else {
      assert a + b == a;
    }
  }

  /** Each name is kept exactly as often as it occurs in the input when it
      matches, and never otherwise: nothing is duplicated, nothing that
      matches is dropped. */
  lemma {:induction false} MatchingCounts(files: seq<string>, basename: string, ext: string)
    ensures |Matching(files, basename, ext)| <= |files|
    ensures forall x :: multiset(Matching(files, basename, ext))[x] ==
                       (if IsMatching(x, basename, ext) then multiset(files)[x] else 0)
  {
    if files != [] {
      var init := files[..|files| - 1];
      MatchingCounts(init, basename, ext);
      assert files == init + [files[|files| - 1]];
    }
  }

  /** A name is in the filter's output exactly when it is in the input and
      starts with the base name and ends with the extension. */
  lemma MatchingMembers(files: seq<string>, basename: string, ext: string)
    ensures forall x :: x in Matching(files, basename, ext) <==>
      x in files && IsMatching(x, basename, ext)
  {
    MatchingCounts(files, basename, ext);
    forall x
      ensures x in Matching(files, basename, ext) <==> x in files && IsMatching(x, basename, ext)
    {
      assert x in Matching(files, basename, ext) <==> multiset(Matching(files, basename, ext))[x] > 0;
      assert x in files <==> multiset(files)[x] > 0;
    }
  }

  // ---------------------------------------------------------------------
  // Per-name transform

  /** What is left of `filename` once the base-name prefix and then the
      extension suffix are removed (each only if present). */
  function Residue(filename: string, basename: string, ext: string): (r: string)
    ensures |r| <= |filename|
    ensures IsMatching(filename, basename, ext) && |basename| + |ext| <= |filename| ==>
      basename + r + ext == filename
  {
    var rest := RemovePrefix(filename, basename);
    assert IsMatching(filename, basename, ext) && |basename| + |ext| <= |filename| ==>
      EndsWith(rest, ext) by {
      if IsMatching(filename, basename, ext) && |basename| + |ext| <= |filename| {
        assert rest == filename[|basename|..];
        assert rest[|rest| - |ext|..] == filename[|filename| - |ext|..];
      }
    }
    RemoveSuffix(rest, ext)
  }

  /** `fix_zero_padded_file`: strip prefix and suffix, insist that the
      residue reads as an integer, pad the residue string itself with '0' up
      to `zeropadlength`, and put the base name and extension back. The
      discarded `lstrip("0")` has no effect and is not modelled. */
  function FixZeroPaddedFile(filename: string, basename: string, zeropadlength: int, ext: string)
    : (r: Result<string>)
    ensures r.Err? <==> !ParsesAsInt(Residue(filename, basename, ext))
    ensures r.Err? ==> r.error == NotANumberSequence(filename, Residue(filename, basename, ext))
    ensures r.Ok? ==> StartsWith(r.value, basename) && EndsWith(r.value, ext)
    ensures r.Ok? ==>
      |r.value| == |basename| + Max(|Residue(filename, basename, ext)|, zeropadlength) + |ext|
  {
    var residue := Residue(filename, basename, ext);
    if !ParsesAsInt(residue) then Err(NotANumberSequence(filename, residue))
    else
      var padded := ZFill(residue, zeropadlength);
      assert (basename + padded + ext)[..|basename|] == basename;
      assert (basename + padded + ext)[|basename| + |padded|..] == ext;
      Ok(basename + padded + ext)
  }

  /** A name of the shape `basename + digits + ext` comes back with exactly
      its digits zero-padded, base name and extension copied verbatim. */
  lemma FixWellFormedName(basename: string, digits: string, zeropadlength: int, ext: string)
    requires ParsesAsInt(digits)
    ensures Residue(basename + digits + ext, basename, ext) == digits
    ensures FixZeroPaddedFile(basename + digits + ext, basename, zeropadlength, ext)
      == Ok(basename + ZFill(digits, zeropadlength) + ext)
  {
    assert basename + digits + ext == basename + (digits + ext);
    RemovePrefixOfConcat(basename, digits + ext);
    RemoveSuffixOfConcat(digits, ext);
  }

  /** The renamed file's residue is the old residue padded: it ends with
      the old residue, only '0's were added, it is never shorter than the
      width, and it reads back as the same frame number. */
  lemma FixKeepsFrameNumber(filename: string, basename: string, zeropadlength: int, ext: string)
    requires FixZeroPaddedFile(filename, basename, zeropadlength, ext).Ok?
    ensures var d := Residue(filename, basename, ext);
      var e := Residue(FixZeroPaddedFile(filename, basename, zeropadlength, ext).value, basename, ext);
      && e == ZFill(d, zeropadlength)
      && |e| == Max(|d|, zeropadlength)
      && EndsWith(e, d)
      && (forall i :: 0 <= i < |e| - |d| ==> e[i] == '0')
      && ParsesAsInt(e)
      && Value(e) == Value(d)
  {
    var d := Residue(filename, basename, ext);
    var padded := ZFill(d, zeropadlength);
    assert FixZeroPaddedFile(filename, basename, zeropadlength, ext).value == basename + padded + ext;
    ZFillKeepsValue(d, zeropadlength);
    FixWellFormedName(basename, padded, zeropadlength, ext);
    ZFillOnlyAddsZeros(d, zeropadlength);
  }

  /** Renaming a renamed file again, with the same base name, width and
      extension, leaves it as it is. */
  lemma FixIdempotent(filename: string, basename: string, zeropadlength: int, ext: string)
    requires FixZeroPaddedFile(filename, basename, zeropadlength, ext).Ok?
    ensures var once := FixZeroPaddedFile(filename, basename, zeropadlength, ext).value;
      FixZeroPaddedFile(once, basename, zeropadlength, ext) == Ok(once)
  {
    var d := Residue(filename, basename, ext);
    var padded := ZFill(d, zeropadlength);
    ZFillKeepsValue(d, zeropadlength);
    FixWellFormedName(basename, padded, zeropadlength, ext);
    ZFillIdempotent(d, zeropadlength);
  }

  /** Two files whose frame numbers differ are never renamed to the same
      name. */
  lemma FixSeparatesFrameNumbers(f1: string, f2: string, basename: string, zeropadlength: int, ext: string)
    requires FixZeroPaddedFile(f1, basename, zeropadlength, ext).Ok?
    requires FixZeroPaddedFile(f2, basename, zeropadlength, ext).Ok?
    requires Value(Residue(f1, basename, ext)) != Value(Residue(f2, basename, ext))
    ensures FixZeroPaddedFile(f1, basename, zeropadlength, ext)
      != FixZeroPaddedFile(f2, basename, zeropadlength, ext)
  {
    FixKeepsFrameNumber(f1, basename, zeropadlength, ext);
    FixKeepsFrameNumber(f2, basename, zeropadlength, ext);
  }

  /** Frame numbers written with a different count of leading zeros do
      collide: "movie1.tga" and "movie01.tga" both become "movie01.tga". */
  lemma LeadingZeroVariantsCollide()
    ensures FixZeroPaddedFile("movie1.tga", "movie", 2, ".tga") == Ok("movie01.tga")
    ensures FixZeroPaddedFile("movie01.tga", "movie", 2, ".tga") == Ok("movie01.tga")
  {
    assert ZFill("1", 2) == "01" by {
      assert Zeros(1) == "0";
    }
    assert "movie1.tga" == "movie" + "1" + ".tga";
    assert "movie01.tga" == "movie" + "01" + ".tga";
    FixWellFormedName("movie", "1", 2, ".tga");
    FixWellFormedName("movie", "01", 2, ".tga");
  }

  /** The worked example of the script's own comment; the base name is
      copied as given, with its lower-case first letter. */
  lemma DocExample()
    ensures FixZeroPaddedFile("myMovie002.tga", "myMovie", 4, ".tga") == Ok("myMovie0002.tga")
  {
    assert ZFill("002", 4) == "0002" by {
      assert Zeros(1) == "0";
    }
    assert "myMovie002.tga" == "myMovie" + "002" + ".tga";
    assert "myMovie0002.tga" == "myMovie" + "0002" + ".tga";
    FixWellFormedName("myMovie", "002", 4, ".tga");
  }

  /** A residue already wider than the width is left as it is. */
  lemma WiderResidueUnchanged()
    ensures FixZeroPaddedFile("movie12345.tga", "movie", 4, ".tga") == Ok("movie12345.tga")
  {
    assert "movie12345.tga" == "movie" + "12345" + ".tga";
    FixWellFormedName("movie", "12345", 4, ".tga");
  }

  /** Residues that are not numbers, or are empty, raise an error naming
      the file and the residue. */
  lemma BadResiduesRejected()
    ensures FixZeroPaddedFile("movieAB.tga", "movie", 4, ".tga")
      == Err(NotANumberSequence("movieAB.tga", "AB"))
    ensures FixZeroPaddedFile("movie.tga", "movie", 4, ".tga")
      == Err(NotANumberSequence("movie.tga", ""))
  {
    assert "movieAB.tga" == "movie" + "AB" + ".tga";
    assert "movieAB.tga" == "movie" + ("AB" + ".tga");
    RemovePrefixOfConcat("movie", "AB" + ".tga");
    RemoveSuffixOfConcat("AB", ".tga");
    assert !IsDigit("AB"[0]);
    assert "movie.tga" == "movie" + ".tga";
    RemovePrefixOfConcat("movie", ".tga");
    RemoveSuffixOfConcat("", ".tga");
  }

  // ---------------------------------------------------------------------
  // Pad width

  /** `len(str(count - 1))`: the number of decimal digits of the highest
      zero-based frame index. Only reached with at least one file. */
  function PadWidth(count: nat): (w: nat)
    requires count >= 1
    ensures w >= 1
    ensures count - 1 < Pow10(w)
    ensures w == 1 || Pow10(w - 1) <= count - 1
  {
    DecimalStringLength(count - 1);
    |DecimalString(count - 1)|
  }

  /** The width is determined by the count alone: one digit for 1 to 10
      files, two for 11 to 100, and so on. */
  lemma PadWidthExamples()
    ensures PadWidth(1) == 1 && PadWidth(10) == 1
    ensures PadWidth(11) == 2 && PadWidth(12) == 2 && PadWidth(100) == 2
    ensures PadWidth(101) == 3
  {
  }

  /** Any frame index below the count has a numeral no wider than the pad
      width. */
  lemma IndexFitsPadWidth(k: nat, count: nat)
    requires k < count
    ensures |DecimalString(k)| <= PadWidth(count)
  {
    DecimalStringLengthMonotone(k, count - 1);
  }

  // ---------------------------------------------------------------------
  // Rename pass

  /** The rename loop over `files` with a fixed width: one rename per file,
      in order, stopping at the first file whose residue is not a number. */
  function RenamePlan(files: seq<string>, basename: string, zeropadlength: int, ext: string): (r: Outcome)
    ensures |r.renames| <= |files|
    ensures r.Completed? ==> |r.renames| == |files|
  {
    if files == [] then Completed([])
    else
      var last := files[|files| - 1];
      var prev := RenamePlan(files[..|files| - 1], basename, zeropadlength, ext);
      if prev.Aborted? then prev
      else
        var newfile := FixZeroPaddedFile(last, basename, zeropadlength, ext);
        if newfile.Err? then Aborted(prev.renames, newfile.error)
        else Completed(prev.renames + [Rename(last, newfile.value)])
  }

  /** One more file extends a pass that has not failed by one rename, or
      fails it at that file. */
  lemma RenamePlanStep(files: seq<string>, basename: string, zeropadlength: int, ext: string)
    requires files != []
    requires RenamePlan(files[..|files| - 1], basename, zeropadlength, ext).Completed?
    ensures var done := RenamePlan(files[..|files| - 1], basename, zeropadlength, ext).renames;
      var last := files[|files| - 1];
      var newfile := FixZeroPaddedFile(last, basename, zeropadlength, ext);
      && (newfile.Err? ==> RenamePlan(files, basename, zeropadlength, ext) == Aborted(done, newfile.error))
      && (newfile.Ok? ==>
            RenamePlan(files, basename, zeropadlength, ext) == Completed(done + [Rename(last, newfile.value)]))
  {
  }

  /** Once a pass has failed, later files change nothing: the loop has
      already stopped. */
  lemma {:induction false} RenamePlanStaysAborted(files: seq<string>, k: nat, basename: string, zeropadlength: int, ext: string)
    requires k <= |files|
    requires RenamePlan(files[..k], basename, zeropadlength, ext).Aborted?
    ensures RenamePlan(files, basename, zeropadlength, ext) == RenamePlan(files[..k], basename, zeropadlength, ext)
    decreases |files| - k
  {
    if k == |files| {
      assert files[..k] == files;
    } else {
      var init := files[..|files| - 1];
      assert init[..k] == files[..k];
      RenamePlanStaysAborted(init, k, basename, zeropadlength, ext);
    }
  }

  /** One run after the directory listing: filter, refuse an empty set,
      compute the width, rename. */
  function Run(listing: seq<string>, basename: string, folder: string, ext: string): (r: Outcome)
    ensures |r.renames| <= |listing|
  {
    var files := Matching(listing, basename, ext);
    if |files| == 0 then Aborted([], NoMatchingFiles(basename, folder))
    else RenamePlan(files, basename, PadWidth(|files|), ext)
  }

  /** The rename loop of the script: each file in turn gets its new name,
      and the first bad residue stops the loop with the renames already
      done kept. */
  method RenamePass(files: seq<string>, basename: string, zeropadlength: int, ext: string)
    returns (outcome: Outcome)
    ensures outcome == RenamePlan(files, basename, zeropadlength, ext)
  {
    var renamed: seq<Rename> := [];
    for i := 0 to |files|
      invariant RenamePlan(files[..i], basename, zeropadlength, ext) == Completed(renamed)
    {
      assert files[..i + 1][..i] == files[..i];
      RenamePlanStep(files[..i + 1], basename, zeropadlength, ext);
      var newfile := FixZeroPaddedFile(files[i], basename, zeropadlength, ext);
      if newfile.Err? {
        RenamePlanStaysAborted(files, i + 1, basename, zeropadlength, ext);
        return Aborted(renamed, newfile.error);
      }
      renamed := renamed + [Rename(files[i], newfile.value)];
    }
    assert files[..|files|] == files;
    return Completed(renamed);
  }

  /** The body of the script after the listing: the filter, the empty-set
      check, the width, then the rename loop. */
  method RenameMatchingFiles(listing: seq<string>, basename: string, folder: string, ext: string)
    returns (outcome: Outcome)
    ensures outcome == Run(listing, basename, folder, ext)
  {
    var files := GetMatchingTgaFiles(listing, basename, ext);
    if |files| == 0 {
      return Aborted([], NoMatchingFiles(basename, folder));
    }
    var zeropadlength := PadWidth(|files|);
    outcome := RenamePass(files, basename, zeropadlength, ext);
  }

  /** The log `rs` renames the first `|rs|` files, in order, each to its
      transformed name. */
  ghost predicate RenamedInOrder(files: seq<string>, rs: seq<Rename>, basename: string, zeropadlength: int, ext: string) {
    && |rs| <= |files|
    && forall i :: 0 <= i < |rs| ==>
         rs[i].source == files[i]
         && FixZeroPaddedFile(files[i], basename, zeropadlength, ext) == Ok(rs[i].target)
  }

  lemma RenamedInOrderExtends(init: seq<string>, files: seq<string>, rs: seq<Rename>, basename: string, zeropadlength: int, ext: string)
    requires init <= files
    requires RenamedInOrder(init, rs, basename, zeropadlength, ext)
    ensures RenamedInOrder(files, rs, basename, zeropadlength, ext)
  {
    forall i | 0 <= i < |rs|
      ensures files[i] == init[i]
    {
    }
  }

  /** The renames performed are, in order, the files from the first one,
      each to its transformed name; a completed pass renames every file
      once, an aborted one stops exactly at the file whose residue failed. */
  lemma {:induction false} RenamePlanFaithful(files: seq<string>, basename: string, zeropadlength: int, ext: string)
    ensures var out := RenamePlan(files, basename, zeropadlength, ext);
      && RenamedInOrder(files, out.renames, basename, zeropadlength, ext)
      && (out.Completed? ==> |out.renames| == |files|)
      && (out.Aborted? ==>
            |out.renames| < |files|
            && FixZeroPaddedFile(files[|out.renames|], basename, zeropadlength, ext) == Err(out.error))
  {
    if files != [] {
      var init := files[..|files| - 1];
      var last := files[|files| - 1];
      RenamePlanFaithful(init, basename, zeropadlength, ext);
      var prev := RenamePlan(init, basename, zeropadlength, ext);
      RenamedInOrderExtends(init, files, prev.renames, basename, zeropadlength, ext);
      if prev.Aborted? {
        assert files[|prev.renames|] == init[|prev.renames|];
      } else {
        var newfile := FixZeroPaddedFile(last, basename, zeropadlength, ext);
        if newfile.Ok? {
          var rs := prev.renames + [Rename(last, newfile.value)];
          assert RenamedInOrder(files, rs, basename, zeropadlength, ext) by {
            forall i | 0 <= i < |rs|
              ensures rs[i].source == files[i]
              ensures FixZeroPaddedFile(files[i], basename, zeropadlength, ext) == Ok(rs[i].target)
            {
              if i < |prev.renames| {
                assert rs[i] == prev.renames[i];
              } else {
                assert i == |init| && rs[i] == Rename(last, newfile.value);
              }
            }
          }
        }
      }
    }
  }

  /** A pass completes exactly when every file's residue is a number. */
  lemma RenamePlanCompletesIff(files: seq<string>, basename: string, zeropadlength: int, ext: string)
    ensures RenamePlan(files, basename, zeropadlength, ext).Completed? <==>
      forall i :: 0 <= i < |files| ==> FixZeroPaddedFile(files[i], basename, zeropadlength, ext).Ok?
  {
    RenamePlanFaithful(files, basename, zeropadlength, ext);
  }

  /** The only error a pass raises is a bad residue. */
  lemma {:induction false} RenamePlanErrors(files: seq<string>, basename: string, zeropadlength: int, ext: string)
    ensures RenamePlan(files, basename, zeropadlength, ext).Aborted? ==>
      RenamePlan(files, basename, zeropadlength, ext).error.NotANumberSequence?
  {
    if files != [] {
      RenamePlanErrors(files[..|files| - 1], basename, zeropadlength, ext);
    }
  }

  /** A run reports "no files found" exactly when nothing matches, and then
      renames nothing. */
  lemma RunRejectsEmptySet(listing: seq<string>, basename: string, folder: string, ext: string)
    ensures var out := Run(listing, basename, folder, ext);
      (out.Aborted? && out.error.NoMatchingFiles?) <==> Matching(listing, basename, ext) == []
    ensures Matching(listing, basename, ext) == [] ==>
      Run(listing, basename, folder, ext) == Aborted([], NoMatchingFiles(basename, folder))
  {
    var files := Matching(listing, basename, ext);
    if |files| > 0 {
      RenamePlanErrors(files, basename, PadWidth(|files|), ext);
    }
  }

  /** The aim stated in the script's header: when every matching file's
      residue fits in the pad width, the completed run renames every
      matching file once and all new names have the same length. */
  lemma UniformLengthAfterRun(listing: seq<string>, basename: string, folder: string, ext: string)
    requires Run(listing, basename, folder, ext).Completed?
    requires forall f :: f in Matching(listing, basename, ext) ==>
      |Residue(f, basename, ext)| <= PadWidth(|Matching(listing, basename, ext)|)
    ensures var files := Matching(listing, basename, ext);
      var rs := Run(listing, basename, folder, ext).renames;
      && |files| >= 1
      && |rs| == |files|
      && forall i :: 0 <= i < |rs| ==>
           rs[i].source == files[i]
           && |rs[i].target| == |basename| + PadWidth(|files|) + |ext|
  {
    var files := Matching(listing, basename, ext);
    assert |files| >= 1;
    var w := PadWidth(|files|);
    var out := RenamePlan(files, basename, w, ext);
    assert Run(listing, basename, folder, ext) == out;
    var rs := out.renames;
    RenamePlanFaithful(files, basename, w, ext);
    forall i | 0 <= i < |rs|
      ensures |rs[i].target| == |basename| + w + |ext|
    {
      var d := Residue(files[i], basename, ext);
      assert files[i] in files;
      assert |d| <= w;
      assert FixZeroPaddedFile(files[i], basename, w, ext) == Ok(rs[i].target);
      assert Max(|d|, w) == w;
    }
  }
}
