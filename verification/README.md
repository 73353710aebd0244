# ImgScalerCompressor in Dafny

`ImgScalerCompressor.py` is a one-shot batch job. It walks the directory listing, picks the PNG files, and shrinks each one so that its longest side is at most 800 pixels. It re-encodes each as WEBP into a `Compressed/` folder. Two text logs record the outcomes: `duplicate_names.txt` lists output names that were already taken, and `Missed PNGs.txt` lists input files whose encoding failed.

This project models the decision logic of that script and proves properties about it. Pillow's decoding, resizing and encoding are not modelled. There are three modules, one per concern:

- `resize.dfy`, module `Resize`: the resize policy. `TargetSize` maps an image size to the size the script asks Pillow for. `Capped` is an independent description of the policy that uses no division. It is proved to have exactly one solution, and that solution is `TargetSize`.
- `naming.dfy`, module `Naming`:
  - the input filter `IsPng`, which accepts names ending in exactly `.png` or `.PNG`;
  - `os.path.splitext` on a bare file name (`SplitExt`, `Stem`);
  - the output name `OutputName`, which is the stem plus `.webp`.

  `IsSplit` describes a correct split without searching for the last dot, and `SplitExt` is proved to be its only solution.
- `batch.dfy`, module `Batch`: the loop over the listing.
  - It is a left fold, `Run`, of the per-entry `Step` over a `State`. The state holds the names present in `Compressed/`, the files written with their sizes, the duplicate log and the missed log.
  - In the model, a PNG on which `Image.open` (line 29) or `img.resize` (line 42 or 45) raises stops the run (`Aborted`), because both calls sit outside the `try`. Those are the only aborts the model has; the other statements that can raise are listed under "Left out". The entry's verdict for this case is `Undecodable`. `Image.open` reads only the header, and the pixels are first loaded by `resize`. An image small enough not to be resized first loads its pixels in `save` (line 60), inside the `try`, so a pixel error there is `Decoded(size, false)` and goes to the missed log.
  - `Classify` is a reference description of each entry's fate that does not replay the loop. An output name counts as taken when it was in the folder at the start, or when some earlier entry decodes and saves to it. `RunMatchesClassification` proves that the fold produces exactly the files and log lines that `Classify` assigns, in listing order.

Modelling assumptions:

- **Division.** The script computes `int(800 * other / longest)` with a float division. The model uses integer division on naturals. The quotient is never negative, so truncation equals the floor. When `801 * longest < 2^53`, the correctly rounded float quotient truncates to the same integer. That covers a longest side below about 1.1·10^13 pixels, far beyond any real image. The exact quotient is then at least `1/longest` below the next integer, and that gap exceeds the rounding error.
- **Image sizes** are naturals with no precondition. The script never divides by zero: it divides only when the longest side exceeds 800.
- **Directory listing** is a plain input: a sequence of entries. Each entry is a name plus the codec's verdict on its content: undecodable, or decoded at a size, with a flag saying whether the WEBP save would succeed.
- **Output folder.** Its prior contents are a set of names. A failed save adds nothing to it.
- **Name comparison.** The existence check at line 54 is exact membership in that set.

Lines 29, 42 and 45 are outside the `try`, so an exception raised there ends the run. So are lines 51 and 56, and lines 63-64 run inside the `except` handler, so an exception from any of those also ends the run. The model treats lines 51, 56, 63 and 64 as unable to fail. Only an exception from `save` at line 60 is caught and logged as missed.

The comment at line 26 says the filter is case-insensitive. Line 27 accepts only the two spellings `.png` and `.PNG`. The model follows the code: `ExactCasingsOnly` proves that `.Png` and every other mixed casing is rejected.

## Model

| member | source | states |
|---|---|---|
| Resize.Longest | ImgScalerCompressor.py:35 | `max(width, height)`. No contract of its own; `TargetSize` and `OversizeHitsCap` state what the policy does with it |
| Resize.TargetSize | ImgScalerCompressor.py:32-45 | If the longest side is at most 800, the size is unchanged. Otherwise the longest side of the result is exactly 800. Neither side of the result exceeds the input |
| Resize.TargetSizeIsCapped | ImgScalerCompressor.py:38-45 | The result satisfies the division-free policy `Capped`. For an image over 800, the longest side becomes 800 on the same axis, and the other side `q` satisfies `q*longest <= 800*other < (q+1)*longest` |
| Resize.ScaleSide | ImgScalerCompressor.py:40-45 | The scaled shorter side is the floor of `800*other/longest`, and it is at most the original side and at most 800 |
| Resize.CappedIsTargetSize | ImgScalerCompressor.py:35-45 | A size satisfies the policy if and only if it equals `TargetSize`, so the policy allows exactly one target |
| Resize.TargetSizeIdempotent | ImgScalerCompressor.py:38-45 | Applying the policy to its own result changes nothing |
| Resize.OversizeHitsCap | ImgScalerCompressor.py:38-45 | An image over 800 ends with its longest side exactly 800. A landscape or square image gets width 800. A portrait image gets height 800 and a width strictly below 800 |
| Resize.ScenarioSizes | ImgScalerCompressor.py:35-42 | 1600x900 becomes 800x450, and 200x200 is left unscaled |
| Naming.IsPng | ImgScalerCompressor.py:27 | No contract of its own. `ExactCasingsOnly` characterises it: a name with a 3-letter extension is selected if and only if that extension is `png` or `PNG`. `OutputNameOfPlainBase` shows both suffixes are accepted |
| Naming.SplitExt | ImgScalerCompressor.py:48 | No contract of its own. `SplitExtIsSplit` characterises it as the unique split meeting the division-free description `IsSplit` |
| Naming.Stem | ImgScalerCompressor.py:48 | No contract of its own. It is the root part of `SplitExt`, and `SplitExtIsSplit` characterises it |
| Naming.OutputName | ImgScalerCompressor.py:48 | No contract of its own. `OutputNameOfPng` characterises it on selected names, and `OutputNeverSelected` shows it never passes the input filter |
| Naming.LastDot | ImgScalerCompressor.py:48 | Returns -1 or the index of a dot, and no dot follows the returned index |
| Naming.SplitExtIsSplit | ImgScalerCompressor.py:48 | A (root, extension) pair satisfies the split description if and only if it is what `SplitExt` returns. The description: the parts concatenate to the name; a non-empty extension starts with its only dot after a root that is not all dots; an empty extension means every dot is preceded only by dots |
| Naming.OutputNameOfPng | ImgScalerCompressor.py:27-48 | For a selected name, the output replaces the 4-character `.png`/`.PNG` suffix with `.webp`. If everything before the suffix is dots or nothing, `.webp` is appended to the whole name |
| Naming.ExactCasingsOnly | ImgScalerCompressor.py:27 | A name with any 3-letter extension is selected if and only if that extension is `png` or `PNG` |
| Naming.OutputNeverSelected | ImgScalerCompressor.py:27-48 | An output name never passes the input filter |
| Naming.OutputNameInnerDot | ImgScalerCompressor.py:48 | Only the final extension is removed: `a.b.png` becomes `a.b.webp` |
| Naming.OutputNameLeadingDots | ImgScalerCompressor.py:48 | Leading dots never start an extension: `..png` becomes `..png.webp` |
| Naming.OutputNameOfPlainBase | ImgScalerCompressor.py:27-48 | A non-empty, dot-free base followed by `.png` or `.PNG` is selected, and its output name is the base plus `.webp` |
| Naming.OutputNameCasings | ImgScalerCompressor.py:27-48 | `a.png` and `a.PNG` are both selected and both map to `a.webp` |
| Naming.MixedCaseSkipped | ImgScalerCompressor.py:27 | `a.Png` is not selected |
| Naming.OutputNamePhotoIcon | ImgScalerCompressor.py:27-48 | `photo.png` maps to `photo.webp` and `icon.PNG` maps to `icon.webp`. Both are selected, and the two output names differ |
| Batch.Step | ImgScalerCompressor.py:27-64 | A non-PNG entry changes nothing. A PNG on which opening or resizing raises aborts with the state unchanged. Otherwise exactly one record is added, and nothing is removed. The duplicate log receives the output name if and only if that name is already present. A file is written, at its target size, and its name is added to the folder, if and only if the entry saves and its output name is not yet present. The missed log receives the input name if and only if the entry decodes, its save fails, and its output name is not yet present |
| Batch.Start | ImgScalerCompressor.py:22-23 | No contract of its own. It is the folder's prior contents with nothing written and both logs empty, because the logs are opened with mode `"w"` |
| Batch.Run | ImgScalerCompressor.py:25-64 | Over the whole listing the folder only grows and each log is only appended to. A completed run adds exactly one record per selected entry |
| Batch.Convert | ImgScalerCompressor.py:19-64 | No contract of its own. `RunMatchesClassification`, `AbortsIffUndecodable`, `WritesAreFresh` and `SecondRunAllDuplicates` state its behaviour |
| Batch.StepFollowsClassify | ImgScalerCompressor.py:53-63 | If a state agrees with `Classify` on the entries so far, one more step on an entry that does not abort the run keeps the agreement, extended by that entry |
| Batch.RunMatchesClassification | ImgScalerCompressor.py:53-63 | A completed run equals the reference classification: the folder holds the prior names plus every name some entry saved to. The written files, the duplicate log of output names and the missed log of input names are exactly the entries `Classify` assigns to each, in listing order |
| Batch.AbortsIffUndecodable | ImgScalerCompressor.py:27-45 | A model run aborts if and only if some selected entry carries the verdict `Undecodable` |
| Batch.AbortKeepsPrefix | ImgScalerCompressor.py:22-45 | An abort happens at the first `Undecodable` PNG, and its state is the completed run over the entries before it |
| Batch.FirstClaimantWins | ImgScalerCompressor.py:54-56 | Once an earlier entry has saved to an output name, every later selected entry with that output name that decodes is classified as a duplicate. A later entry that is `Undecodable` ends the run instead |
| Batch.WritesAreFresh | ImgScalerCompressor.py:54-60 | Every written file has a name that was not in the folder before the run and is in it afterwards. No name is written twice |
| Batch.NoPngNoEffect | ImgScalerCompressor.py:25-27 | A listing with no selected entry leaves the state unchanged |
| Batch.AllTakenAllDuplicates | ImgScalerCompressor.py:54-56 | If every selected entry decodes and its output name is already present, nothing is written or missed. Every output name is logged as a duplicate, in listing order |
| Batch.CompletedRunCovers | ImgScalerCompressor.py:54-63 | After a completed run, each selected entry decoded. Its output name is in the folder, or its own input name is among the lines the run appended to the missed log |
| Batch.CoveredStep | ImgScalerCompressor.py:54-63 | One more step on an entry that does not abort keeps every earlier selected entry accounted for, in the folder or in the new part of the missed log. The new entry is accounted for too |
| Batch.SecondRunAllDuplicates | ImgScalerCompressor.py:54-56 | A second run over the same listing, after a first run that completed and missed nothing, writes nothing. Every selected entry's output name goes to the duplicate log |
| Batch.WriteStep | ImgScalerCompressor.py:53-60 | A selected entry that decodes and saves to a free output name adds that name to the folder and appends the output at its target size. The logs are unchanged |
| Batch.SameTargetSecondIsDuplicate | ImgScalerCompressor.py:27-60 | Two selected, encodable entries that share an output name, run into an empty folder: the first is written once, at its target size, and the shared output name is logged as a duplicate. `a.png` followed by `a.PNG` is such a pair |
| Batch.DistinctTargetsBothWritten | ImgScalerCompressor.py:25-60 | Two selected, encodable entries with different output names, run into an empty folder: both are written at their target sizes, in order, and both logs stay empty |
| Batch.PhotoAndIcon | ImgScalerCompressor.py:25-60 | `photo.png` at 1600x900 and `icon.PNG` at 200x200 produce `photo.webp` at 800x450 and `icon.webp` at 200x200, with both logs empty |

## Left out

- Filesystem plumbing (lines 14-23, 54, 67, 72): creating `Compressed/`, `os.listdir`, opening and truncating the logs, and the `getsize` checks. The listing and the folder's prior contents are inputs. The logs start empty (`Start`).
- Pillow (lines 9-12, 29, 42, 45, 60): decoding, `resize` with `ANTIALIAS`, WEBP encoding at quality 75, and `MAX_IMAGE_PIXELS`. Each entry carries the codec's verdict instead. Pixel data is not modelled. A written file records only its name and its target size (`TargetSize`): the size passed to `resize`, or the decoded size when the image is 800 pixels or less. Whether Pillow accepts a zero-length side (2000x1 gives height 0) is not modelled. From Pillow 10 on `Image.ANTIALIAS` no longer exists, so lines 42 and 45 raise for every image over 800 pixels; the model expresses that only through the `Undecodable` verdict.
- Batch.Step: the duplicate-log write (line 56), the missed-log write (line 63) and the two prints (lines 51, 64) are treated as unable to fail. In the script an exception there ends the run. For example, on Windows the logs opened at lines 22-23 use the locale encoding with strict errors, so a selected `😀.png` whose output name is already taken raises `UnicodeEncodeError` at line 56. Whether that happens depends on the folder state, so a per-entry verdict cannot express it.
- Resize.TargetSize: uses integer division instead of IEEE double division followed by `int()`. The two agree whenever `801 * longest < 2^53`, which holds for every realistic image size. Beyond that they can differ: for `other = 22517998136853` and `longest = 800 * other + 1`, the float quotient rounds to 1.0 while the floor is 0.
- Naming.SplitExt: computed on a bare file name. Path separator handling is not modelled, because listing entries carry no separator.
- Case-insensitive filesystems: on Windows, `os.path.exists` matches names case-insensitively. The model compares names exactly.
- Dialogs and console output (lines 50-51, 64, 66-74). After a completed run, the duplicate dialog fires exactly when the duplicate log is non-empty, and the missed dialog exactly when the missed log is non-empty. After an abort, lines 66-74 never run. Neither dialog is modelled as an operation.
- A partially written output after a failed `save`: the model adds nothing to the folder when a save fails.
- The state of the log files after an abort: the exception closes both files with the lines written so far, which is what `Aborted` carries. The traceback itself is not modelled.
