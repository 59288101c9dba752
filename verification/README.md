# Pixel-perfect image to SVG converter, in Dafny

This project models the core of `img2svg_pixelperfect_ui.py`, a desktop tool
that turns raster images into SVG files. Each horizontal run of identical,
not fully transparent pixels becomes one `<rect>` of height 1. The model
covers four parts of the program:

- the colour helper `rgba_to_svg_fill`;
- the run scan and document text of `image_to_svg_vector`;
- the per-path loop of `convert_selected` and the clearing done by
  `clear_converted`;
- the extension filter and de-duplication of `_add_paths`.

Modules, one per component:

- `Pixels` (`pixels.dfy`): bytes, RGBA pixels and decoded images. An image
  is a grid `pixels[y][x]`.
- `Fill` (`fill.dfy`): the `#RRGGBB` fill text and the `a / 255` opacity.
- `Decimal` (`decimal.dfy`): the decimal text of `f"{n}"` and `f"{x:.6f}"`.
- `Runs` (`runs.dfy`): the scan.
  - As functions: `RunEnd`, `EncodeFrom`, `EncodeRow` and `Encode`, with
    the partition, uniformity, maximality and order lemmas.
  - As the nested `while` loops of `image_to_svg_vector`: `ScanRow` and `ScanImage`. Their
    loop invariants prove that they compute the functions.
- `Raster` (`raster.dfy`): a viewer's painting of runs onto a transparent
  canvas, and the round-trip theorem.
- `Svg` (`svg.dfy`): the document as a structure, its reading back, and
  the text written to the file.
- `Paths` (`paths.dfy`): the `pathlib` operations the program uses.
  - `name`, `suffix` and `stem` follow the classic rule: the suffix starts
    at the last dot, unless that dot is the first or the last character.
  - `str.lower` is modelled on ASCII letters.
- `Selection` (`selection.dfy`): `_add_paths` over an abstract disk.
- `Batch` (`batch.dfy`): `convert_selected` and `clear_converted` over an
  abstract output folder.

## What the code does where its description says otherwise

The module docstring (`img2svg_pixelperfect_ui.py`, line 8) calls the
output "lossless pixel-perfect": rasterising the SVG should give back the
original RGBA buffer. The code does not do that for every image:

- a pixel with alpha 0 is never written;
- so a pixel such as `(12, 34, 56, 0)` comes back as `(0, 0, 0, 0)`.

The model proves what the code actually guarantees:

- `Raster.RoundTrip` and `Svg.SvgRoundTrip`: the reproduction equals the
  image after every alpha-0 pixel is replaced by `(0, 0, 0, 0)`.
- `Raster.ExactRoundTripIff`: the reproduction is exact if and only if
  every alpha-0 pixel of the image is already `(0, 0, 0, 0)`.

These round trips read back the document as a structure (`Svg.Document`),
whose opacity is the exact `a / 255`. They do not read back the written
text, where the opacity has six decimals. A reader of the text must round
`opacity * 255` to the nearest integer. `RectToRun` takes the floor of the
exact value instead, which would read the written `0.996078` for alpha 254
as 253. For the text itself, the model states these facts:

- `Svg.Render`: the layout is declaration, header, rect lines and closing tag.
- `Svg.SvgTextLines`: an image's file has one line per run, plus three.
- `Svg.RectTextOneLine`: each rect line ends in `/>`.
- `Svg.HeaderSizeRoundTrip`: the size reads back from the header.
- `Decimal.Fixed6Accurate`: the opacity text reads back within half a
  millionth.

The attributes of a rect line are not read back from the text.

Two inputs can share a stem (`a.png` and `a.jpg`); take the second to
exist. Once the first of them has been converted, or skipped because its
output already existed, the second is skipped and reported as skipped. If
the first is missing or Pillow cannot read it, nothing is written for it,
and the second is converted when Pillow can read it and the shared output
did not exist before the batch. The code never reports a collision.
`Batch.LaterSameStemSkipped` states this behaviour as written.

## Model

| member | source | states |
|---|---|---|
| `Fill.Hex2` | img2svg_pixelperfect_ui.py:37 | `{v:02X}` gives two upper-case hex digits whose value is the channel |
| `Fill.FillHex` | img2svg_pixelperfect_ui.py:37 | the fill is `#` followed by exactly six upper-case hex digits |
| `Fill.FillRoundTrip` | img2svg_pixelperfect_ui.py:37 | parsing the fill text gives back `(r, g, b)` |
| `Fill.ParseFillInverse` | img2svg_pixelperfect_ui.py:37 | every text the fill parser accepts is the fill of the channels it reads, so fill text and colour determine each other |
| `Fill.Opacity` | img2svg_pixelperfect_ui.py:37 | the opacity lies in `[0, 1]` and times 255 is the alpha |
| `Fill.EmitsOpacity` | img2svg_pixelperfect_ui.py:68 | the test `a / 255 < 1` holds exactly when `a < 255` |
| `Decimal.NatToString` | img2svg_pixelperfect_ui.py:66 | a number is written as at least one decimal digit, with no leading zero |
| `Decimal.NatToStringRoundTrip` | img2svg_pixelperfect_ui.py:66 | the written digits read back as the number |
| `Decimal.PadDigitsRoundTrip` | img2svg_pixelperfect_ui.py:69 | the six zero-padded fraction digits read back as the fraction |
| `Decimal.Round6` | img2svg_pixelperfect_ui.py:69 | `.6f` keeps the nearest number of millionths |
| `Decimal.Fixed6` | img2svg_pixelperfect_ui.py:69 | `.6f` text has at least one integer digit, a point, and six digits after it |
| `Decimal.Fixed6Accurate` | img2svg_pixelperfect_ui.py:69 | the `.6f` text reads back within half a millionth of the opacity |
| `Runs.RunEnd` | img2svg_pixelperfect_ui.py:61-62 | the inner loop stops at the first column that ends the row or differs from the run colour; every column before it has that colour |
| `Runs.ScanRun` | img2svg_pixelperfect_ui.py:61-62 | the inner `while` stops exactly at the end of the run |
| `Runs.EncodeFrom` | img2svg_pixelperfect_ui.py:53-63 | runs found from column `x` start at or after `x`, lie on row `y`, are non-empty, and end within the row |
| `Runs.EncodeFromUniform` | img2svg_pixelperfect_ui.py:58-63 | every run is non-empty, not transparent, and all its pixels equal its start pixel |
| `Runs.EncodeFromColorAt` | img2svg_pixelperfect_ui.py:55-60 | each run takes the colour of the pixel it starts on, and that pixel has non-zero alpha |
| `Runs.EncodeFromRightMaximalAt` | img2svg_pixelperfect_ui.py:61-62 | each run ends at the row's end or before a pixel of another colour |
| `Runs.EncodeFromLeftMaximalAt` | img2svg_pixelperfect_ui.py:53-62 | each run starts where the scan started or just after a pixel of another colour |
| `Runs.EncodeFromMaximal` | img2svg_pixelperfect_ui.py:61 | a run ends at the row's end or before a differently coloured pixel; it starts at the scan start or after a differently coloured pixel |
| `Runs.EncodeFromOrdered` | img2svg_pixelperfect_ui.py:53-63 | runs ascend in `x` and do not overlap |
| `Runs.EncodeFromCovers` | img2svg_pixelperfect_ui.py:54-57 | every pixel with non-zero alpha lies in some run |
| `Runs.EncodeFromCoversAt` | img2svg_pixelperfect_ui.py:54-62 | a given pixel with non-zero alpha lies in some run |
| `Runs.EncodeRowPartition` | img2svg_pixelperfect_ui.py:52-63 | the runs of a row are legal, uniform, maximal, ordered and cover every opaque pixel: with the alpha-0 pixels they partition the row |
| `Runs.EncodeRow` | img2svg_pixelperfect_ui.py:52-63 | the runs of one row: the scan from column 0; its properties are stated by `EncodeRowPartition` and `RowEmptyIffTransparent` |
| `Runs.ScanRow` | img2svg_pixelperfect_ui.py:52-63 | the nested `while` loops emit exactly the runs of `EncodeRow` |
| `Runs.EncodeRows` | img2svg_pixelperfect_ui.py:51 | the runs of rows `y` and later name only those rows |
| `Runs.Encode` | img2svg_pixelperfect_ui.py:51 | every run names a row of the image |
| `Runs.EncodeRowsRowMajor` | img2svg_pixelperfect_ui.py:51-63 | the runs of rows `y` and later come in row-major order |
| `Runs.EncodeRowMajor` | img2svg_pixelperfect_ui.py:51-63 | the runs come by row, and within a row by column, without overlap |
| `Runs.EncodeFromEmptyIff` | img2svg_pixelperfect_ui.py:53-57 | the scan from column `x` yields no run if and only if all pixels from `x` on have alpha 0 |
| `Runs.RowEmptyIffTransparent` | img2svg_pixelperfect_ui.py:55-57 | a row yields no run if and only if all its pixels have alpha 0 |
| `Runs.EncodeRowsEmptyIffTransparent` | img2svg_pixelperfect_ui.py:51-57 | rows `y` and later yield no run if and only if all their pixels have alpha 0 |
| `Runs.EncodeEmptyIffTransparent` | img2svg_pixelperfect_ui.py:51-57 | an image yields no run if and only if all its pixels have alpha 0 |
| `Runs.EncodeRowsUniform` | img2svg_pixelperfect_ui.py:51-63 | every run of the image is uniform and lies within the row it names |
| `Runs.ScanImage` | img2svg_pixelperfect_ui.py:51-63 | the loop over rows emits exactly the runs of `Encode` |
| `Raster.RowRoundTripFrom` | img2svg_pixelperfect_ui.py:53-63 | painting the runs found from column `x` completes a row whose first `x` pixels are already restored |
| `Raster.RowRoundTrip` | img2svg_pixelperfect_ui.py:52-63 | painting a row's runs onto a transparent row restores it, alpha-0 pixels reading as transparent black |
| `Raster.GridRoundTripFrom` | img2svg_pixelperfect_ui.py:51-63 | painting the runs of rows `y` and later completes a canvas whose earlier rows are restored |
| `Raster.RoundTrip` | img2svg_pixelperfect_ui.py:51-70 | painting all runs onto a transparent `w x h` canvas reproduces the image, alpha-0 pixels reading as transparent black |
| `Raster.ExactRoundTripIff` | img2svg_pixelperfect_ui.py:55-57 | the reproduction is exact if and only if every alpha-0 pixel is already transparent black |
| `Svg.RunToRect` | img2svg_pixelperfect_ui.py:64-70 | a run's rect has its column, row and length, height 1, a fill that reads back as its colour, and an opacity written exactly when alpha < 255, equal to alpha / 255 |
| `Svg.RunsToRects` | img2svg_pixelperfect_ui.py:51-70 | one rect per run, in scan order |
| `Svg.ImageToSvg` | img2svg_pixelperfect_ui.py:41-70 | the document has the image's size, view box `0 0 w h` and the crisp-edges hint; it has one rect per run, each of height 1 and inside the image |
| `Svg.NoRectsIffTransparent` | img2svg_pixelperfect_ui.py:51-70 | a document has no rect if and only if the image is all transparent |
| `Svg.RectOfRunRoundTrip` | img2svg_pixelperfect_ui.py:64-70 | reading a run's rect back gives the run |
| `Svg.RectsOfRunsRoundTrip` | img2svg_pixelperfect_ui.py:51-70 | reading the rects back gives the runs |
| `Svg.SvgRoundTrip` | img2svg_pixelperfect_ui.py:39-72 | rasterising the document structure (exact opacity `a / 255`) reproduces the image, alpha-0 pixels reading as transparent black |
| `Svg.Render` | img2svg_pixelperfect_ui.py:44-72 | the text is the XML declaration, the header, the rect lines in document order and `</svg>`; with no rects, nothing lies between header and closing tag |
| `Svg.RectsText` | img2svg_pixelperfect_ui.py:51-70 | the `f.write` of one rect line per run, in order; its line count is stated by `RectsTextLines` |
| `Svg.RectTextOneLine` | img2svg_pixelperfect_ui.py:65-70 | each rect is written as exactly one line, ending in `/>` |
| `Svg.RectsTextLines` | img2svg_pixelperfect_ui.py:51-70 | the rect lines hold as many line breaks as there are rects |
| `Svg.HeaderTextOneLine` | img2svg_pixelperfect_ui.py:46-49 | the `<svg>` tag is written as one line |
| `Svg.RenderLines` | img2svg_pixelperfect_ui.py:44-72 | a document is written as one line per rect plus declaration, tag and closing tag |
| `Svg.SvgTextLines` | img2svg_pixelperfect_ui.py:39-72 | the file of an image has exactly one line per run plus three |
| `Svg.HeaderText` | img2svg_pixelperfect_ui.py:46-48 | the `<svg>` tag with `width`, `height`, `viewBox` and the crisp-edges hint; read back by `HeaderSizeRoundTrip` |
| `Svg.HeaderSizeRoundTrip` | img2svg_pixelperfect_ui.py:46-48 | the `width` and `height` written into the header read back (by the digit reader `ReadSize`) as the image's size |
| `Svg.RectText` | img2svg_pixelperfect_ui.py:65-70 | one `<rect>` line: position, size, fill and, when present, the six-decimal opacity |
| `Svg.SvgText` | img2svg_pixelperfect_ui.py:39-72 | an all-transparent image is written as declaration, header and closing tag only |
| `Svg.RedRedGreenRuns` | img2svg_pixelperfect_ui.py:51-63 | red, red, green gives the runs `(0, 0, 2, red)` and `(0, 2, 1, green)` |
| `Svg.RedRedGreenRects` | img2svg_pixelperfect_ui.py:64-70 | those runs give `#FF0000` of width 2 and `#00FF00` of width 1, without opacity |
| `Svg.Fixed6BelowOne` | img2svg_pixelperfect_ui.py:69 | an opacity that rounds below one is written as `0.` and six digits |
| `Svg.HalfOpacityText` | img2svg_pixelperfect_ui.py:68-69 | alpha 128 is written as `fill-opacity="0.501961"` |
| `Svg.TransparentTwoByTwo` | img2svg_pixelperfect_ui.py:46-57 | a 2 x 2 transparent image gives a 2 x 2 document without rects |
| `Paths.LastIndexOfSpec` | img2svg_pixelperfect_ui.py:177 | the last-occurrence search finds the character, and none follows it |
| `Paths.LastIndexOfIs` | img2svg_pixelperfect_ui.py:177 | an occurrence with none after it is the one found |
| `Paths.NameIsLastComponent` | img2svg_pixelperfect_ui.py:212 | `Path.name` is the part after the last `/`: it holds no `/` and ends the path |
| `Paths.Name` | img2svg_pixelperfect_ui.py:212 | `Path(p).name`, the text after the last `/`; its contract is `NameIsLastComponent` |
| `Paths.SuffixDot` | img2svg_pixelperfect_ui.py:177 | the suffix starts at a dot that is neither the first nor the last character, or there is none |
| `Paths.Suffix` | img2svg_pixelperfect_ui.py:177 | a suffix is empty, or a dot followed by at least one character |
| `Paths.SuffixOneDot` | img2svg_pixelperfect_ui.py:177 | a suffix holds no dot after its first character |
| `Paths.SuffixIff` | img2svg_pixelperfect_ui.py:177 | a name has a suffix if and only if it holds a dot that is neither its first nor its last character and has no dot after it |
| `Paths.SuffixOfExt` | img2svg_pixelperfect_ui.py:177 | a non-empty stem followed by `.ext` (no further dot) has suffix `.ext` and that stem |
| `Paths.Stem` | img2svg_pixelperfect_ui.py:214 | the stem of a non-empty name is not empty |
| `Paths.StemSuffix` | img2svg_pixelperfect_ui.py:214 | a name is its stem followed by its suffix |
| `Paths.LowerSpec` | img2svg_pixelperfect_ui.py:177 | lower-casing keeps the length, maps `A`-`Z` to `a`-`z`, and keeps every other character |
| `Paths.JoinName` | img2svg_pixelperfect_ui.py:178 | a folder entry joined to its folder keeps its name |
| `Paths.OutputNameParts` | img2svg_pixelperfect_ui.py:214 | the output file has suffix `.svg` and the input's stem |
| `Paths.OutputName` | img2svg_pixelperfect_ui.py:214 | `src.stem + ".svg"`; `OutputNameParts` states its suffix and stem |
| `Paths.Supported` | img2svg_pixelperfect_ui.py:177-184 | the test `Path(p).suffix.lower() in SUPPORTED_EXT`; pinned down by `SuffixIff`, `SuffixOfExt`, `LowerSpec` and the example lemmas |
| `Paths.SupportedIgnoresCase` | img2svg_pixelperfect_ui.py:177 | `Cat.PNG` is accepted |
| `Paths.SupportedMixedCase` | img2svg_pixelperfect_ui.py:177 | `scan.Tiff` is accepted |
| `Paths.UnsupportedNames` | img2svg_pixelperfect_ui.py:184 | a dot-file `.png` is refused, and so is `cat.png.svg`, since only the last suffix counts |
| `Selection.AddEntries` | img2svg_pixelperfect_ui.py:176-182 | the folder loop keeps the selection as a prefix; it only appends supported paths not yet selected, so it adds no duplicate |
| `Selection.AddEntry` | img2svg_pixelperfect_ui.py:177-182 | one folder entry appends exactly its own path `folder / fname` or nothing, and appends it whenever its extension is supported and the path is new |
| `Selection.AddPath` | img2svg_pixelperfect_ui.py:170-187 | one chosen path keeps the selection as a prefix and appends only new supported paths |
| `Selection.AddPaths` | img2svg_pixelperfect_ui.py:167-187 | `_add_paths` keeps the selection as a prefix; it only appends supported paths not yet selected, so it adds no duplicate |
| `Selection.AddEntriesAppend` | img2svg_pixelperfect_ui.py:176-182 | the folder loop over two lists of entries is the loop over the first and then over the second, so paths are appended in `os.listdir` order |
| `Selection.AddPathsAppend` | img2svg_pixelperfect_ui.py:170-187 | `_add_paths` over two lists of chosen paths is `_add_paths` over the first and then over the second, so paths are appended in the order chosen |
| `Selection.AddedCount` | img2svg_pixelperfect_ui.py:188-191 | the count logged is 0 exactly when the selection is unchanged |
| `Selection.AddPathsKeeps` | img2svg_pixelperfect_ui.py:167-187 | nothing selected is ever dropped |
| `Selection.AddEntriesHas` | img2svg_pixelperfect_ui.py:176-182 | a given supported entry of a folder ends up selected |
| `Selection.AddEntriesComplete` | img2svg_pixelperfect_ui.py:176-182 | every supported entry of a folder ends up selected |
| `Selection.AddPathsComplete` | img2svg_pixelperfect_ui.py:170-187 | every chosen supported file ends up selected, and so does every supported entry of a chosen folder whose path is not in the final selection; a folder already selected when its turn comes is not covered |
| `Selection.AddEntriesSound` | img2svg_pixelperfect_ui.py:176-182 | the folder loop adds only entries of that folder |
| `Selection.AddPathsSound` | img2svg_pixelperfect_ui.py:170-187 | every newly selected path is a chosen regular file or an entry of a chosen folder |
| `Batch.InputsOf` | img2svg_pixelperfect_ui.py:218-219 | there is text to write for exactly the decoded paths; for an all-transparent image it is declaration, header and closing tag |
| `Batch.ConvertOne` | img2svg_pixelperfect_ui.py:210-224 | a path is missing, skipped, failed or converted under exactly these conditions: it does not exist; its output exists; Pillow cannot read it; otherwise. Only a converted path adds a file, its output, holding the converted text |
| `Batch.Outcomes` | img2svg_pixelperfect_ui.py:208 | the loop reports one outcome per selected path |
| `Batch.FolderAfter` | img2svg_pixelperfect_ui.py:208-224 | the loop never removes or changes a file already in the output folder |
| `Batch.FolderAfterAdds` | img2svg_pixelperfect_ui.py:214-220 | after the loop, the folder holds exactly its earlier files plus the outputs of the paths reported converted |
| `Batch.ConvertedWasAbsent` | img2svg_pixelperfect_ui.py:211-220 | a path reported converted exists, decodes, and had no output before the batch |
| `Batch.ExistingOutputSkipped` | img2svg_pixelperfect_ui.py:214-217 | an existing path whose output is already there is skipped, wherever it stands |
| `Batch.RunAppend` | img2svg_pixelperfect_ui.py:208-224 | running two batches one after the other is running their concatenation |
| `Batch.OutcomeAt` | img2svg_pixelperfect_ui.py:208-224 | path `k` is decided against the folder the first `k` paths left |
| `Batch.FolderGrows` | img2svg_pixelperfect_ui.py:208-224 | the folder only grows from one step of the loop to a later one |
| `Batch.OutcomeNames` | img2svg_pixelperfect_ui.py:212-223 | every outcome carries the `name` of its input |
| `Batch.LaterSameStemSkipped` | img2svg_pixelperfect_ui.py:214-220 | once a path is converted or skipped, any later existing path with the same stem is skipped |
| `Batch.FolderAfterCovers` | img2svg_pixelperfect_ui.py:214-220 | every input that exists and decodes has its output in the folder after the batch |
| `Batch.CoveredBatchIsNoOp` | img2svg_pixelperfect_ui.py:214-217 | a batch whose readable inputs all have outputs already converts nothing and leaves the folder unchanged |
| `Batch.SkippedOutputKept` | img2svg_pixelperfect_ui.py:214-217 | a skipped path exists and its output is in the folder afterwards |
| `Batch.FolderAfterCovered` | img2svg_pixelperfect_ui.py:214-220 | after a batch, every readable input of it has its output in the folder |
| `Batch.RerunSkips` | img2svg_pixelperfect_ui.py:214-217 | a path the first run converted or skipped is skipped by a second run |
| `Batch.Idempotent` | img2svg_pixelperfect_ui.py:208-224 | a second run converts nothing, leaves the folder as the first left it, and skips every path the first converted or skipped |
| `Batch.ConvertSelected` | img2svg_pixelperfect_ui.py:198-227 | with nothing selected only a warning is given and nothing changes; otherwise every path gets the outcome `Outcomes` gives it, the folder becomes `FolderAfter`, and the selection is cleared |
| `Batch.ConvertedOutputKept` | img2svg_pixelperfect_ui.py:214-218 | a converted path's output still holds the text written for it when the batch ends |
| `Batch.ConvertedWritesSvg` | img2svg_pixelperfect_ui.py:214-219 | for decoded images, a converted path's output file is the SVG text `image_to_svg_vector` writes for the image |
| `Batch.ConvertedNames` | img2svg_pixelperfect_ui.py:219 | each name is listed as converted as many times as it was converted |
| `Batch.SkippedNames` | img2svg_pixelperfect_ui.py:216 | each name is listed as skipped as many times as it was skipped |
| `Batch.Errors` | img2svg_pixelperfect_ui.py:210-223 | each missing or failed outcome is listed as often as it occurred, and nothing else is |
| `Batch.SummaryLength` | img2svg_pixelperfect_ui.py:210-243 | every outcome lands in exactly one of the three lists |
| `Batch.Summary` | img2svg_pixelperfect_ui.py:232-243 | the logged lists hold every outcome exactly once, with multiplicity: converted names, skipped names, and the missing or failed paths |
| `Batch.ClearConverted` | img2svg_pixelperfect_ui.py:249-253 | clearing keeps only the files whose deletion failed, unchanged |
| `Batch.ClearThenConvert` | img2svg_pixelperfect_ui.py:247-253 | after a clean clear, a batch converts every readable input unless an earlier readable input took the same output name |

## Left out

- The CustomTkinter and ttk interface is not modelled: windows, buttons,
  dialogs, the tree view, the log panel and the status line.
- Pillow's `Image.open` and `convert("RGBA")` are foreign calls. An input is
  either a decoded `w x h` grid of RGBA bytes or unreadable, given by the
  `Inputs` parameter of `Batch`.
- File I/O is abstracted:
  - the output folder is a map from file name to text;
  - `os.listdir` and `is_dir`/`is_file` are a `Disk` value;
  - `mkdir` and `rmdir` have no effect and never fail in the model. A
    failing `OUTPUT_DIR.mkdir` (line 203) would end `convert_selected`
    with no outcome and the selection kept.
- Write failures are not modelled. A failure after the output file is
  opened would leave a partial file; in the model a conversion either
  writes the whole text or, when Pillow cannot read the input, nothing.
- `Path.resolve` is not modelled: paths are taken as already absolute and
  resolved. Symbolic links inside a chosen folder are therefore not
  followed.
- Paths are POSIX paths and the output folder is case-sensitive. `Name`
  splits only on `/`, and output names are compared exactly. On Windows,
  where the program also ships as an executable, `Path.name` also splits
  on `\`. On Windows, and on macOS by default, `out_svg.exists()` ignores
  case: `/p/Cat.png` and then `/q/cat.jpg` give converted then skipped
  there, but converted twice in the model.
- The output folder holds the string passed to `write`. The file is opened
  in text mode (line 44), so on Windows each `\n` reaches the disk as
  `\r\n`. There the bytes on disk differ from the text that `Svg.Render`
  and `Batch.ConvertedWritesSvg` describe, by one `\r` per line.
- A folder that `os.listdir` cannot read is not modelled. In the program
  the exception leaves `_add_paths` at once: the paths appended so far
  stay, the remaining chosen paths are not looked at, and nothing is
  logged. The model's `Disk` always gives a listing.
- `Selection.AddPaths`: requires that directory entries hold no `/` (`Disk.Valid`), which `os.listdir` guarantees.
- `Paths.Lower`: lower-cases ASCII letters only. Python's `str.lower`
  also maps other letters, which cannot change whether a suffix is one of
  the eight ASCII extensions.
- `Paths.Suffix`: follows `pathlib` up to Python 3.13. There, a name
  ending in a dot has no suffix.
- `Decimal.Fixed6`: rounds the exact rational `a / 255` to six decimals
  instead of formatting the nearest double. For alpha values 1 to 254,
  `a * 10^6 / 255` is never exactly half-way between two integers. Its
  distance from the nearest half-way point is at least `1 / 510`, far more
  than the error of the double. The two therefore agree; this argument is
  not proved.
- `Batch.Summary`: states how often each name and error appears in the
  three logged lists, not their order. The error texts (`(missing)`, `(error: …)`) and
  the exception messages are not modelled.
- `Batch.ClearConverted`: the folder's own removal and the log messages
  are not modelled. A file whose deletion fails is given by the `stuck`
  parameter.
- `BASE_DIR`, the PyInstaller frozen-executable detection and the output
  directory's location are not modelled.
