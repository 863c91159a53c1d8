# Demo movie zero-pad fixer, modelled in Dafny

The script `rename-demo-movie-files.py` repairs the frame files a Source-engine
demo export writes (`MOVIENAME0000.tga` … `MOVIENAME9999.tga`,
`MOVIENAME10000.tga` …) so that every frame number carries the same number of
digits. It keeps the files of a directory whose names start with a base name
and end with an extension, derives a pad width from how many there are, and
renames each file so that its number is left-padded with zeros to that width.

This project models the core of that script:

- `py_strings.dfy` (module `PyStrings`): the Python string built-ins the
  script relies on — `startswith`, `endswith`, `removeprefix`, `removesuffix`
  (which leaves the string alone for an empty suffix), `zfill` (including its
  sign rule), `int(...)` on a residue and `str(...)` on a natural number — with
  lemmas on padding (never truncates, adds only `'0'` on the left, keeps the
  number, is idempotent) and on the length of a decimal numeral.
- `rename_demo_movie_files.dfy` (module `RenameDemoMovieFiles`):
  - the filter `get_matching_tga_files` as a method with a loop, proved equal
    to the specification function `Matching`, with lemmas on order, membership
    and multiplicity;
  - `fix_zero_padded_file` as a function returning `Ok(new name)` or
    `Err(NotANumberSequence(filename, residue))`, with lemmas for well-formed
    names, frame-number preservation, idempotence and the error cases;
  - the pad width `len(str(len(files) - 1))` as `PadWidth`, characterised by
    powers of ten;
  - the rest of the script after the directory listing as the method
    `RenameMatchingFiles` (filter, "no files found" error, width, rename loop),
    proved equal to the function `Run`. The renames the loop performs are
    returned as a log of `Rename(source, target)` pairs in order; a run that
    stops on a bad residue returns the renames already performed, since the
    script does not undo them.

Details the model keeps from the code:

- The `lstrip("0")` at line 40 discards its result, so it is not modelled.
- Line 43 pads the residue string itself; the integer is only used to check
  that the residue parses. Leading zeros already present are kept, and a
  residue longer than the width comes back unchanged.
- `removeprefix`/`removesuffix` only act when the prefix/suffix is present, so
  a name lacking the base name still gets the base name put in front of its
  padded residue (`FixZeroPaddedFile` is total over all names).
- The width counts the digits of `len(files) - 1`, the highest zero-based
  frame index; it does not look at the numbers actually present.
  `IndexFitsPadWidth` shows that a numbering from 0 without gaps fits it;
  `UniformLengthAfterRun` gives the uniform-length promise under the
  condition that every residue fits.
- `zfill`'s rule for a leading `+` or `-` is modelled for `ZFill` on its own
  (`ZFillKeepsSignInFront`); the residues the model accepts are unsigned
  digits (`ParsesAsInt`), so `FixZeroPaddedFile` never reaches it.
- Both functions default `ext` to `".tga"` (lines 19 and 28); the model takes
  the extension as an ordinary parameter, since both call sites (lines 69 and
  82) pass it. The comment's example at line 31 relies on the default, and
  `DocExample` passes `".tga"` explicitly.
- The comment at lines 29-33 shows the result as `"MyMovie0002.tga"`; the code
  copies the base name verbatim, so the result is `"myMovie0002.tga"`
  (`DocExample`).
- Names whose numbers differ only in leading zeros are renamed to the same
  name (`LeadingZeroVariantsCollide`); names whose numbers differ never are
  (`FixSeparatesFrameNumbers`).

## Model

| member | source | states |
|---|---|---|
| PyStrings.StartsWith | rename-demo-movie-files.py:24 | definition: `startswith` as the sequence-prefix test; its contract gives the index-wise reading, and every string starts with "" |
| PyStrings.EndsWith | rename-demo-movie-files.py:24 | definition: `endswith` as equality of the last characters; its contract gives the index-wise reading, and every string ends with "" |
| PyStrings.ParsesAsInt | rename-demo-movie-files.py:41 | definition: when `int()` accepts the residue (non-empty ASCII digits); an accepted residue never starts with a sign |
| PyStrings.Value | rename-demo-movie-files.py:41 | definition: the number `int()` returns for a digit string, read most significant digit first; it is below 10^length |
| PyStrings.DecimalString | rename-demo-movie-files.py:75 | definition: `str(k)` for a natural k, a non-empty digit string |
| PyStrings.RemovePrefix | rename-demo-movie-files.py:38 | the result is what follows the prefix when the name starts with it, and the whole name otherwise |
| PyStrings.RemoveSuffix | rename-demo-movie-files.py:39 | the result followed by the suffix is the name when it ends with the suffix, and the name is left alone otherwise |
| PyStrings.ZFill | rename-demo-movie-files.py:43 | the padded string is exactly max(length, width) long |
| PyStrings.ZFillOnlyAddsZeros | rename-demo-movie-files.py:43 | padding an unsigned residue never truncates: the residue survives whole at the right end and every added character is '0' |
| PyStrings.ZFillKeepsSignInFront | rename-demo-movie-files.py:43 | for a signed string the sign stays first and the zeros go between it and the rest |
| PyStrings.ZFillIdempotent | rename-demo-movie-files.py:43 | padding twice to the same width is padding once |
| PyStrings.LeadingZerosKeepValue | rename-demo-movie-files.py:41-43 | leading zeros do not change the number a digit string denotes |
| PyStrings.ZFillKeepsValue | rename-demo-movie-files.py:41-43 | the padded residue still parses as an integer and has the same value |
| PyStrings.DecimalStringRoundTrip | rename-demo-movie-files.py:75 | str(k) parses back to k and has no superfluous leading zero |
| PyStrings.DecimalStringLength | rename-demo-movie-files.py:75 | len(str(k)) is the least w >= 1 with k < 10^w |
| PyStrings.DecimalStringLengthMonotone | rename-demo-movie-files.py:75 | a larger number never has a shorter numeral |
| RenameDemoMovieFiles.Matching | rename-demo-movie-files.py:19-26 | definition: the input names that start with the base name and end with the extension, in order; no longer than the input and every kept name matches |
| RenameDemoMovieFiles.GetMatchingTgaFiles | rename-demo-movie-files.py:19-26 | the loop's output is the filter of the input by prefix and suffix |
| RenameDemoMovieFiles.MatchingConcat | rename-demo-movie-files.py:22-26 | filtering a concatenation is the concatenation of the filtered parts, so the input order is kept |
| RenameDemoMovieFiles.MatchingCounts | rename-demo-movie-files.py:22-26 | the output is no longer than the input and holds each matching name exactly as often as the input, and no other name |
| RenameDemoMovieFiles.MatchingMembers | rename-demo-movie-files.py:24-25 | a name is in the output iff it is in the input, starts with the base name and ends with the extension |
| RenameDemoMovieFiles.Residue | rename-demo-movie-files.py:37-39 | definition: the name with the base-name prefix, then the extension suffix, removed when present; for a matching name long enough to hold both, base name + residue + extension is the name |
| RenameDemoMovieFiles.FixZeroPaddedFile | rename-demo-movie-files.py:28-45 | fails iff the residue is not an integer, naming the file and residue; on success the name starts with the base name, ends with the extension and has length base + max(residue, width) + extension |
| RenameDemoMovieFiles.FixWellFormedName | rename-demo-movie-files.py:37-44 | basename + digits + ext becomes basename + zfill(digits, width) + ext, base name and extension verbatim |
| RenameDemoMovieFiles.FixKeepsFrameNumber | rename-demo-movie-files.py:41-43 | the new residue is the old one padded, ends with it, adds only '0's, and parses to the same number |
| RenameDemoMovieFiles.FixIdempotent | rename-demo-movie-files.py:38-44 | renaming an already renamed name with the same arguments changes nothing |
| RenameDemoMovieFiles.FixSeparatesFrameNumbers | rename-demo-movie-files.py:41-44 | files with different frame numbers never get the same new name |
| RenameDemoMovieFiles.LeadingZeroVariantsCollide | rename-demo-movie-files.py:43-44 | "movie1.tga" and "movie01.tga" both become "movie01.tga" at width 2 |
| RenameDemoMovieFiles.DocExample | rename-demo-movie-files.py:29-33 | "myMovie002.tga" with base "myMovie" and width 4 becomes "myMovie0002.tga" |
| RenameDemoMovieFiles.WiderResidueUnchanged | rename-demo-movie-files.py:43 | "movie12345.tga" at width 4 is left unchanged |
| RenameDemoMovieFiles.BadResiduesRejected | rename-demo-movie-files.py:41-42 | "movieAB.tga" and "movie.tga" raise the error naming the file and the residue "AB" or "" |
| RenameDemoMovieFiles.PadWidth | rename-demo-movie-files.py:75 | for n >= 1 files the width w >= 1 satisfies n-1 < 10^w and, when w > 1, 10^(w-1) <= n-1 |
| RenameDemoMovieFiles.PadWidthExamples | rename-demo-movie-files.py:75 | 1 and 10 files give width 1, 11, 12 and 100 give 2, 101 gives 3 |
| RenameDemoMovieFiles.IndexFitsPadWidth | rename-demo-movie-files.py:75 | every zero-based index below the count has a numeral no wider than the width |
| RenameDemoMovieFiles.RenamePlan | rename-demo-movie-files.py:81-84 | definition: the rename loop over the files with a fixed width, stopping at the first error with the renames already done; a completed pass has one rename per file |
| RenameDemoMovieFiles.Run | rename-demo-movie-files.py:69-84 | definition: filter, "no files found" error, width, rename loop; never more renames than listed names |
| RenameDemoMovieFiles.RenamePlanStaysAborted | rename-demo-movie-files.py:81-84 | once the loop has raised, later files change nothing |
| RenameDemoMovieFiles.RenamePass | rename-demo-movie-files.py:81-84 | the loop's outcome is the specified pass over the files |
| RenameDemoMovieFiles.RenameMatchingFiles | rename-demo-movie-files.py:69-84 | filter, empty check, width and loop together give the specified run |
| RenameDemoMovieFiles.RenamePlanFaithful | rename-demo-movie-files.py:81-84 | the renames happen in file order, each to its transformed name; a completed pass renames every file once, an aborted one stops at the file whose residue failed |
| RenameDemoMovieFiles.RenamePlanCompletesIff | rename-demo-movie-files.py:81-84 | a pass completes iff every file's residue is an integer |
| RenameDemoMovieFiles.RenamePlanErrors | rename-demo-movie-files.py:82 | the only error the loop raises is a bad residue |
| RenameDemoMovieFiles.RunRejectsEmptySet | rename-demo-movie-files.py:71-72 | the "no files found" error is raised iff nothing matches, and then nothing is renamed |
| RenameDemoMovieFiles.UniformLengthAfterRun | rename-demo-movie-files.py:13-14 | when every residue fits the width, a completed run renames each matching file once and every new name has length base + width + extension |

## Left out

- Argument parsing, `os.getcwd`, `os.path.abspath`, `os.chdir`, `os.listdir`
  and the `os.path.isfile` filter (lines 47-66): I/O. The listing, already
  restricted to regular files, is a parameter of `Run`.
- `os.rename` (line 84): the file-system effect (overwriting on a name
  collision, permissions, failures) is not modelled; each call is an entry of
  the returned log. A failing rename is not modelled.
- The `print` calls (lines 76-77, 83, 86): output only.
- FixZeroPaddedFile: accepts as an integer only a non-empty run of ASCII
  digits; Python's `int()` also accepts surrounding whitespace, a sign,
  underscores between digits and non-ASCII digits, which the model rejects.
- PadWidth: requires at least one file; the script only reaches line 75 after
  the empty case has raised at lines 71-72, which `Run` models.
