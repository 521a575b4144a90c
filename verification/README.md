# Source Set WebP Maker, modelled in Dafny

`sourcesetmaker.py` is a batch script. It takes every image of a folder and
writes a WebP copy of it into one directory per requested width, resized
when the image is wider than that width. It also writes one copy at the
original size into `originalsize/`, and a text manifest
`sourceset_info.txt` that describes the run.

This project models the deterministic planning logic under the PIL and
filesystem calls:

- which files are picked up (`SUPPORTED_FORMATS`, `get_image_files`);
- the resize-dimension rule (`resize_image`);
- the colour-mode normalisation table of `convert_to_webp`;
- the body of `main`:
  - the bucket plan;
  - the per-image output paths;
  - the early exit when a resize raises;
  - the success counter;
  - the manifest.

An image is the record `(width, height, mode)`. `Image.open` and the
outcome of a WebP encoding are oracles, given as parameters (`Oracles`).

Modules, one file each:

- `Wrappers` (`wrappers.dfy`): `Option` and `Result`.
- `Text` (`text.dfy`): Python's `str(int)`, ASCII `str.upper`,
  `str.endswith` and `', '.join`.
- `Imaging` (`imaging.dfy`):
  - `resize_image`;
  - the mode normalisation of `convert_to_webp`.
- `Listing` (`listing.dfy`):
  - `SUPPORTED_FORMATS`;
  - the `*<ext>` globs;
  - `get_image_files`, a method with a loop;
  - pathlib's `stem`.
- `Buckets` (`buckets.dfy`): the loop that fills `width_dirs` and asks for
  the directories (a method).
- `Processing` (`processing.dfy`): the loop over the buckets of one image
  and the loop over all images with the counter (methods). Each is proved
  against a specification function.
- `Manifest` (`manifest.dfy`): `sorted` and the writes to
  `sourceset_info.txt` (methods with loops).
- `Batch` (`batch.dfy`): `main` after argument parsing.
  - It fails when the folder is missing, is not a directory, or holds no
    image.
  - Otherwise it lists the directories it creates and reports:
    - the files;
    - the counter;
    - every encoder call;
    - the manifest.

Python integers are unbounded, and so are the model's. `int(x)` truncates
toward zero, which the model writes out for negative targets.

Two behaviours of the code are modelled as written:

- **Extension matching.** Each extension is looked for by two globs, one
  with the lower-case spelling and one with the upper-case spelling (lines
  27-29). pathlib's glob on a POSIX path matches case-sensitively, so
  `photo.Jpg` is not picked up. The model takes this POSIX behaviour.
- **A resize that raises ends the image.** A width below 1, or a resize
  that would give a height of 0, makes PIL's `resize` raise. The
  exception reaches the `try` of the image loop. That image then gets no
  further bucket output, no `originalsize` output and no count. The model
  returns `None` from `ResizeImage` and stops the image there. Other
  reasons for `resize` to raise are not modelled (see "Left out").

## Model

| member | source | states |
|---|---|---|
| Text.IntToString | sourcesetmaker.py:120 | `str(width)` is non-empty and starts with `-` exactly when the width is negative, otherwise with a digit |
| Text.NatToString | sourcesetmaker.py:120 | the decimal text of a non-negative int: at least one digit, a single digit exactly below 10, and a leading `0` only for 0 |
| Text.NatToStringRoundTrip | sourcesetmaker.py:120 | the text of a non-negative int is digits only, has no leading zero unless it is `0`, and reads back as the same number |
| Text.IntToStringRoundTrip | sourcesetmaker.py:120 | `str(n)` is a numeral (an optional `-`, then digits without a leading zero) and `int(str(n)) == n` |
| Text.IntToStringInjective | sourcesetmaker.py:118-122 | two ints with the same decimal text are equal, so the directory name determines the width |
| Text.DefaultWidthTexts | sourcesetmaker.py:87 | the default widths 320, 640 and 960 are written `320`, `640` and `960`, and -5 is written `-5` |
| Text.Upper | sourcesetmaker.py:29 | `ext.upper()` for an ASCII extension: same length, each lower-case letter replaced by its capital, every other character kept |
| Text.JoinInts | sourcesetmaker.py:163 | `', '.join(map(str, widths))`: the empty string exactly for an empty list; read back by `Text.JoinIntsInjective` |
| Text.JoinIntsInjective | sourcesetmaker.py:163 | two width lists with the same joined text are equal: a numeral holds no comma, so the first `, ` ends the first numeral, which gives back the first width, and so on down the list; the "Target widths" line therefore determines the sorted widths |
| Text.JoinDefaultWidths | sourcesetmaker.py:163 | the default widths join to `320, 640, 960` |
| Imaging.ScaledHeight | sourcesetmaker.py:38-39 | `int(height * target / width)`: for a non-negative target the largest q with q*width <= height*target; never positive for a negative target |
| Imaging.ResizeImage | sourcesetmaker.py:33-40 | a source no wider than the target comes back unchanged; a wider one succeeds exactly when the target is at least 1 and the scaled height at least 1, and then has the target width, the source mode and the truncated proportional height |
| Imaging.ResizeNeverEnlarges | sourcesetmaker.py:35-40 | a successful resize has width min(width, target), is no larger than the source in either dimension, and keeps the mode |
| Imaging.NormalizationSteps | sourcesetmaker.py:47-55 | RGB: no step; RGBA: one paste with the alpha mask; LA: one paste with no mask; P: conversion to RGBA, then a paste with the alpha mask; any other mode: one conversion to RGB |
| Imaging.Normalize | sourcesetmaker.py:46-57 | the image handed to the encoder is RGB, of the source's size, and is the source itself when that is RGB |
| Imaging.NormalizeIdempotent | sourcesetmaker.py:46-57 | normalising a normalised image changes nothing and needs no step |
| Listing.IsImageName | sourcesetmaker.py:27-29 | the selection rule: the name ends with a supported extension or with its upper-case spelling; characterised by `Listing.ImageNameBySuffix` |
| Listing.SupportedFormatsAreLower | sourcesetmaker.py:16 | every supported extension is a dot followed by lower-case letters |
| Listing.AtMostOnePattern | sourcesetmaker.py:27-29 | a name ends with at most one of the sixteen glob patterns, so no name is listed by two globs |
| Listing.Glob | sourcesetmaker.py:28 | a `*suffix` glob yields each entry ending with the suffix as often as it is listed, and nothing else |
| Listing.ImageNames | sourcesetmaker.py:22-31 | the selected entries: each name with a supported extension in lower or upper case, as often as it is listed, and nothing else |
| Listing.GetImageFiles | sourcesetmaker.py:22-31 | for any iteration order of the extension set, the list built by the glob loop holds exactly the selected entries, counted with multiplicity |
| Listing.EnumerationCovers | sourcesetmaker.py:27 | after every extension of the set has been visited, the names matched are exactly the image names |
| Listing.NoEarlierMatch | sourcesetmaker.py:27-29 | a name matched in one iteration was matched by no earlier one, and not by both globs of its own iteration |
| Listing.LastDot | sourcesetmaker.py:140 | the `rfind('.')` that `stem` relies on: -1 or the index of a dot with no dot after it |
| Listing.Stem | sourcesetmaker.py:140 | pathlib's `stem`: a prefix of the name, shorter than the name exactly when the last dot is neither the first nor the last character, and then ending just before that dot |
| Listing.StemOfImageName | sourcesetmaker.py:140-148 | a selected name has a last dot with a supported spelling after it; the stem followed by that suffix is the name, except for a name that is only the suffix (`.jpg`), whose stem is the whole name |
| Listing.ImageNameBySuffix | sourcesetmaker.py:27-29 | a name is selected exactly when it has a dot and the suffix from its last dot is a supported extension or its upper-case spelling |
| Listing.MixedCaseNotSelected | sourcesetmaker.py:27-29 | a suffix mixing lower- and upper-case letters is never selected |
| Listing.SelectionExamples | sourcesetmaker.py:27-29 | `photo.jpg` and `photo.JPG` are selected, `photo.Jpg` is not, and the stem of `photo.jpg` is `photo` |
| Buckets.WidthDir | sourcesetmaker.py:120 | `output_base / str(width)`: the save path, `/`, the width's decimal text; see `Buckets.WidthDirName` |
| Buckets.WidthDirName | sourcesetmaker.py:120 | the last component of a width directory is a numeral that reads back as the width |
| Buckets.OriginalDir | sourcesetmaker.py:125 | `output_base / "originalsize"`; different from every width directory by `Buckets.WidthDirInjective` |
| Buckets.WidthDirMap | sourcesetmaker.py:118-122 | the dict `width_dirs` as a map: every listed width to its directory; `Buckets.PlanBuckets` proves the loop builds it |
| Buckets.FirstIndex | sourcesetmaker.py:118-122 | the position of the first occurrence of a width in the list: an occurrence, with none before it |
| Buckets.Dedup | sourcesetmaker.py:118-122 | the dict keys: exactly the listed widths, each once, ordered by first occurrence in the list (dict insertion order), no more of them than widths given |
| Buckets.DedupExample | sourcesetmaker.py:118-122 | the widths 640, 320, 640 give the buckets 640, 320 in that order |
| Buckets.PlanBuckets | sourcesetmaker.py:118-122 | the loop asks for one directory per listed width (repeats included); the dict ends up with the first-occurrence order of distinct widths and maps each listed width to its directory |
| Buckets.WidthDirInjective | sourcesetmaker.py:118-126 | two widths share a directory exactly when they are equal, and no width directory is `originalsize` |
| Buckets.OneDirectoryPerDistinctWidth | sourcesetmaker.py:118-126 | the buckets are the distinct widths, with pairwise different directories, all different from `originalsize` |
| Processing.OutputName | sourcesetmaker.py:140-148 | the output file name `f"{stem}.webp"`, the same in every bucket and in `originalsize` |
| Processing.ConvertToWebp | sourcesetmaker.py:42-61 | one encoder call: the given path and quality, an RGB image of the source's size |
| Processing.BucketSource | sourcesetmaker.py:138-145 | a bucket gets the original when it is no narrower than the image, otherwise the resize; under the size rule of the model the resize raises exactly for a width below 1 or a zero height; a bucket image has width min(width, bucket) and no larger size |
| Processing.FirstFailure | sourcesetmaker.py:137-145 | the first bucket whose resize raises, or the bucket count: every earlier bucket succeeds |
| Processing.ProcessedImage | sourcesetmaker.py:135-150 | the specification of one opened image: the bucket outputs up to the first raising resize, then, if none raised, the `originalsize` output that decides the count; characterised by the lemmas below |
| Processing.FileOutcome | sourcesetmaker.py:134-154 | a file that fails to open contributes no output and no count; an opened one contributes `ProcessedImage` of its stem |
| Processing.ProcessImage | sourcesetmaker.py:135-150 | the bucket loop and the `originalsize` call produce exactly the specified encoder calls and count flag |
| Processing.ProcessedImageOutputs | sourcesetmaker.py:137-150 | an image without a raising resize gets one output per bucket, in bucket order, at `<dir>/<stem>.webp`, resized to the bucket width when wider and unchanged otherwise, then one `originalsize` output of the original that alone decides the count |
| Processing.VariantAttemptShape | sourcesetmaker.py:138-145 | the output of one bucket: its path, RGB at the run's quality, width min(width, bucket), truncated proportional height when resized |
| Processing.AbortedImage | sourcesetmaker.py:135-154 | under the size rule of the model, processing stops early exactly when some bucket narrower than the image is below 1 pixel or gives a zero height; such an image gets exactly the outputs of the buckets before the first raising one, each as in `Processing.VariantAttemptShape`, no `originalsize` output and no count |
| Processing.FailureIff | sourcesetmaker.py:137-145 | some resize raises exactly when some bucket narrower than the image is below 1 pixel or gives a zero height |
| Processing.CountedIff | sourcesetmaker.py:148-150 | an image is counted exactly when no resize raises and its `originalsize` conversion returns True |
| Processing.SuccessCount | sourcesetmaker.py:129-154 | the counter never exceeds the number of image files |
| Processing.ProcessAll | sourcesetmaker.py:129-154 | the image loop ends with the specified counter and the specified sequence of encoder calls |
| Processing.SuccessCountIgnoresVariants | sourcesetmaker.py:136-150 | encoders that agree on `originalsize` outputs give the same count, whatever the bucket conversions return |
| Processing.FailingEncoderCountsNothing | sourcesetmaker.py:149-150 | when the encoder call never returns True the counter stays 0 |
| Processing.SuccessCountCounts | sourcesetmaker.py:129-154 | the counter equals the number of files whose outcome is counted |
| Processing.WideImageScenario | sourcesetmaker.py:135-150 | a 2000x1000 image with widths 320, 640, 960 gives 320x160, 640x320, 960x480 and the original in `originalsize/img.webp` |
| Processing.NarrowImageScenario | sourcesetmaker.py:143-150 | a 200x100 palette image narrower than every bucket is written unscaled, as RGB, three times |
| Processing.FlatImageScenario | sourcesetmaker.py:137-154 | a 1000x1 image with bucket 320 raises in the resize, gets no output and no count |
| Manifest.SortAscending | sourcesetmaker.py:163 | `sorted(widths)` is ascending and a permutation of the widths |
| Manifest.AscendingPermutationUnique | sourcesetmaker.py:168 | two ascending permutations of the same widths are equal, so the manifest order is determined |
| Manifest.BucketLine | sourcesetmaker.py:169 | the line for one width bucket; different widths give different lines (`Manifest.BucketLineInjective`) |
| Manifest.Header | sourcesetmaker.py:159-167 | the nine writes before the bucket lines: title, rule, source and output folder, sorted widths, quality, images found, conversions counted, heading |
| Manifest.ManifestWrites | sourcesetmaker.py:158-170 | the whole manifest: header, the bucket lines of the sorted widths, the `originalsize` line; characterised by `Manifest.ManifestLayout` and `Manifest.ManifestListsEveryWidth` |
| Manifest.WriteManifest | sourcesetmaker.py:158-170 | the writes are the header, the bucket lines of the sorted widths and the `originalsize` line |
| Manifest.WriteBucketLines | sourcesetmaker.py:168-169 | the loop writes one bucket line per sorted width, in order |
| Manifest.ManifestLayout | sourcesetmaker.py:158-170 | nine header writes, then exactly one line per element of the width list in ascending order, then the `originalsize` line last |
| Manifest.BucketLineInjective | sourcesetmaker.py:169 | different widths get different bucket lines |
| Manifest.BucketLinesCount | sourcesetmaker.py:168-169 | each width's line appears as often as the width occurs |
| Manifest.ManifestListsEveryWidth | sourcesetmaker.py:163-170 | the bucket section of the manifest lists each width exactly as often as it was given: duplicates are repeated, not collapsed |
| Batch.PlanFor | sourcesetmaker.py:118-126 | the bucket plan of `main` has a directory for every bucket key |
| Batch.Run | sourcesetmaker.py:94-170 | a missing folder, a non-directory and a folder without images each end the run with an error and no directory created; otherwise the files are the folder's image names, the directories created are the savepath, one per listed width and `originalsize`, and the counter, the encoder calls and the manifest are the specified ones |

## Left out

- PIL's pixel work is abstract. The model keeps only the image record
  (width, height, mode). Left out:
  - Lanczos resampling;
  - `Image.new`, `split` and `paste` compositing;
  - `convert`;
  - WebP encoding with `quality` and `method=6`.
- Whether an LA image is whitened where it is transparent when pasted with
  no mask depends on PIL. The model records the step "paste onto white,
  no mask" and the RGB result.
- Whether `convert_to_webp` succeeds is the oracle `converts`. Lines 141,
  145 and 149 pass an open `Image` object where line 45 calls
  `Image.open` on its argument. How PIL treats that is not visible here.
  If it always fails, `Processing.FailingEncoderCountsNothing` gives the
  outcome: a counter of 0.
- `Image.open` on a listed file is the oracle `opens`. A file that fails to
  open is skipped with nothing written.
- Imaging.ResizeImage: raises only under the size rule (a width below 1,
  a zero height, or a zero-width source with a negative target). PIL's
  `resize` also raises when it cannot decode the pixel data. That too ends
  the image at line 152, with no `originalsize` output and no count. The
  model cannot see pixel data, so it does not express this case.
- Imaging.ScaledHeight: computes `h * t / w` exactly and truncates. Python
  rounds the float `t / w` before multiplying. In rare cases that can give
  a height one lower than the exact quotient. This gap is not modelled.
- Filesystem and process effects are modelled only in part:
  - `mkdir` is recorded as the list of directories asked for;
  - `exists` and `is_dir` are the `Folder` parameter;
  - the manifest file is the sequence of strings passed to `f.write`;
  - `print` output and the exit status are not modelled: an error result
    stands for `sys.exit(1)`.
- Iteration orders the model does not fix:
  - The order of `glob` results and the iteration order of the set
    `SUPPORTED_FORMATS` are not specified. The set order is a parameter,
    and the listing order is that of the folder entries.
  - Listing.GetImageFiles: states the file list as a multiset, because the
    script itself does not fix the order.
- Listing.Glob: matches case-sensitively, as pathlib does for a POSIX path.
  On a Windows path pathlib's glob ignores case. Then `*.jpg` and `*.JPG`
  both match every spelling, so each image would be listed twice and
  `photo.Jpg` would be picked up. That flavour is not modelled.
- Path semantics:
  - paths are joined with `/` as plain strings;
  - pathlib's normalisation (repeated or trailing separators, `.`) is not
    modelled;
  - `stem` follows pathlib's rule for the last suffix only.
- Argument parsing (`argparse`) is not modelled. Its guarantees are
  preconditions of `Batch.Run`:
  - at least one integer width (`nargs='+'`);
  - a quality between 1 and 100 (`choices=range(1, 101)`).
- Two source files with the same stem, such as `a.jpg` and `a.png`, write
  the same output paths. The later file overwrites the earlier one on disk.
  The model lists both encoder calls and does not model file contents.
- The list of supported formats that is printed when no image is found
  (line 108) is output only and is not modelled.
