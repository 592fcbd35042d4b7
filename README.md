# image-squarelize, modelled in Dafny

`main.py` pads every image in the `in` directory to a square and writes the
result as a PNG to `out`. Its `make_square_image` opens an image, converts it
to RGBA and takes `size = max(w, h)`. It creates a `size` x `size` canvas
filled with `fill_color` and pastes the image at offset
`((size - w) // 2, (size - h) // 2)`, using the image's own alpha channel as
the paste mask. Then it saves the canvas. The loop at the bottom of the file
takes every directory entry whose lower-cased name ends in `.png`, `.jpg` or
`.jpeg`. It strips the last extension with `os.path.splitext` and writes
`out/<stem>.png` on a transparent `(0, 0, 0, 0)` canvas.

The model has four modules:

- `Geometry` (`geometry.dfy`): the canvas side and the paste offset, with the
  facts that the canvas is square, the image fits, it is centred with floor
  bias, and the longer axis gets no padding. `Place` is proved to be the only
  placement that meets an independent description of "centred square".
- `Raster` (`raster.dfy`): pixels and images as values (`Filled`, `Pasted`,
  `Squared`, `Crop`, `Over`). It also has the in-place version on a
  two-dimensional array: `NewCanvas`, `Paste` (nested loops that write only
  the cells of the placement rectangle) and `MakeSquareImage`, proved to
  produce exactly `Squared` of its input. The image library's per-pixel
  compositing under a mask is the parameter `blend`.
- `Paths` (`paths.dfy`): the extension filter and the output name. This
  includes `str.lower`, `str.endswith`, `str.rfind`, the POSIX
  `os.path.splitext` (leading dots of a file name are not an extension) and
  the POSIX two-argument `os.path.join`.
- `Batch` (`batch.dfy`): the loop over a directory listing. It records each
  `make_square_image` call it makes. The output directory is a map from path
  to image: it starts as whatever `out` already held (`makedirs` with
  `exist_ok=True` keeps an existing directory), and the run adds or
  overwrites one `.png` per accepted entry.

`main.py` writes exactly one PNG per accepted entry, into `out`, on a
transparent fill. It has no JPEG output and no other background colour.

## Model

| member | source | states |
|---|---|---|
| `Geometry.Place` | main.py:6-13 | The canvas side is `max(w, h)`: at least both sides and equal to one of them. The image fits: `ox + w <= size` and `oy + h <= size`, with non-negative offsets. Each axis is centred with floor bias: `ox <= size - w - ox <= ox + 1`, and likewise for `oy`. The longer axis has offset 0, and a square input gets offset (0, 0). |
| `Geometry.PlaceIsTheCentredSquare` | main.py:7-13 | A placement is a centred square (side `max(w, h)`, margins balanced to within one pixel with the smaller one left and top) if and only if it equals `Place(w, h)`. |
| `Geometry.PlaceExamples` | main.py:6-13 | 100x50 gives side 100 at (0, 25). 51x50 gives side 51 at (0, 0). 80x120 gives side 120 at (20, 0). An n x n image gives side n at (0, 0). |
| `Raster.Filled` | main.py:10 | The new canvas has the requested size and every cell is the fill colour. |
| `Raster.Pasted` | main.py:16 | `paste` with the image as its own mask, as a value. The result has the canvas's size. A cell covered by the source becomes `blend(source pixel, old cell)`. Every other cell, including those past the source's clipped edge, keeps its old value. |
| `Raster.Squared` | main.py:4-17 | The image `make_square_image` produces is well formed and square. Its side is at least the source's width and height and equals one of them. |
| `Raster.SquaredCells` | main.py:10-16 | Each cell `(x, y)` of the squared image is fixed. Outside the placement rectangle it is the fill colour. Inside, it is `blend(src[x - ox][y - oy], fill)`. |
| `Raster.SquaredSourceCells` | main.py:13-16 | Source pixel `(i, j)` lands on the canvas at `(ox + i, oy + j)`, blended over the fill. |
| `Raster.CropOfSquared` | main.py:13-16 | Cropping the placement rectangle out of the squared image gives exactly the source composited over the fill colour. |
| `Raster.OpaqueRoundTrip` | main.py:5-16 | If the compositing passes fully opaque pixels through unchanged, an all-opaque source is recovered exactly by cropping the squared image. |
| `Raster.TransparentGivesBlank` | main.py:10-16 | If the compositing leaves the canvas alone under fully transparent pixels, an all-transparent source squares to a canvas of pure fill colour. |
| `Raster.NewCanvas` | main.py:10 | Returns a fresh `size` x `size` array whose contents are `Filled(size, size, fill)`. |
| `Raster.Paste` | main.py:16 | Each canvas cell covered by the source becomes `blend(source pixel, old cell)`. Every other cell keeps its old value, including when the source would run past the canvas edge. The new contents equal `Pasted` of the old contents. |
| `Raster.PasteRow` | main.py:16 | One row of the paste: the covered cells of row `y` become `blend(source pixel, old cell)`, and every other cell of the canvas keeps its old value. |
| `Raster.MakeSquareImage` | main.py:4-17 | Returns a fresh square array of side `max(w, h)` whose contents are `Squared(source, fill, blend)`. The source array is not modified. |
| `Paths.EndsWithAny` | main.py:26-30 | `endswith` with a tuple of suffixes is true iff one of the suffixes ends the string. |
| `Paths.Lower` | main.py:30 | `str.lower` on ASCII: the same length, and each character lower-cased by `LowerChar` (`A`-`Z` to `a`-`z`, all others unchanged). |
| `Paths.SupportedSuffixes` | main.py:26-30 | A name is accepted iff its lower-cased form ends in `.png`, `.jpg` or `.jpeg`. |
| `Paths.RFind` | main.py:34 | The `rfind` inside `splitext`: the result is -1 or an index holding the character, and no later index holds it. |
| `Paths.SplitExt` | main.py:34 | Stem and extension concatenate back to the name. The extension is empty, or it is a `.` followed by no other `.` and no `/`. |
| `Paths.SplitExtFindsExtension` | main.py:34 | `splitext` returns a non-empty extension iff, past the last `/`, some `.` follows a character that is not a `.`. Leading dots do not make an extension. |
| `Paths.StemOfSupported` | main.py:30-34 | For an accepted name that has an extension, that extension lower-cases to one of `.png`, `.jpg`, `.jpeg`. An accepted name without one, such as `.png`, is its own stem. |
| `Paths.JoinParts` | main.py:31-35 | `os.path.join(a, b)`: an absolute `b` replaces `a`. Otherwise the result starts with `a` and ends with `b`. There is a `/` between them unless `a` is empty or already ends in one. |
| `Paths.InputPathParts` | main.py:31 | The input path ends with the entry's name. A relative name is read from `in/<name>`. |
| `Paths.StemParts` | main.py:34 | `splitext(file)[0]` is a prefix of the name. What it cuts off is empty, or a `.` followed by no `.` and no `/`. |
| `Paths.OutputPath` | main.py:34-35 | Every output path ends in `.png`, for any input name. |
| `Paths.ListedNamePaths` | main.py:31-35 | For a name without a separator, the input path is `in/<name>` and the output path is `out/<stem>.png`. |
| `Paths.OutputCollision` | main.py:34-35 | Two directory entries get the same output path iff their stems are equal. So `a.png` and `a.jpg` write the same file. |
| `Paths.StemBeforeDot` | main.py:34 | For a name without a separator that does not start with `.`, `splitext` cuts at the last `.`: the stem is everything before it. |
| `Paths.NoExtension` | main.py:34 | A name whose only `.` is its first character has no extension. Its stem is the whole name. |
| `Paths.UpperCaseAccepted` | main.py:30 | `photo.JPG` passes the filter, because the name is lower-cased before the suffix test. |
| `Paths.UpperCaseOutput` | main.py:34-35 | `photo.JPG` is written to `out/photo.png`. |
| `Paths.LastExtensionAccepted` | main.py:30 | `a.b.jpeg` passes the filter. |
| `Paths.LastExtensionOutput` | main.py:34-35 | `a.b.jpeg` is written to `out/a.b.png`: only the last extension goes. |
| `Paths.LeadingDotAccepted` | main.py:30 | `.png` passes the filter. |
| `Paths.LeadingDotOutput` | main.py:34-35 | `.png` is written to `out/.png.png`, because a leading dot does not start an extension. |
| `Paths.OtherSuffixRejected` | main.py:26-30 | `anim.gif` is not accepted. |
| `Paths.BareWordRejected` | main.py:26-30 | `png`, without the dot, is not accepted. |
| `Paths.InnerSuffixRejected` | main.py:26-30 | `photo.png.bak` is not accepted: an accepted suffix must end the name. |
| `Batch.Jobs` | main.py:29-38 | Every recorded call is for an accepted entry, with that entry's input and output paths. |
| `Batch.Written` | main.py:23-38 | The directory after the run keeps every path it held before: the run deletes nothing. |
| `Batch.ProcessAll` | main.py:23-38 | Starting from the directory's previous contents `init`, the loop makes the calls `Jobs(names)` in listing order and leaves the output directory `Written(names, init, decode, blend)`. |
| `Batch.JobsFromListing` | main.py:29-35 | Every call is made for a listed, accepted entry, with input path `in/<entry>` and that entry's output path. |
| `Batch.JobsSelect` | main.py:29-30 | An entry gets a call iff it is listed and accepted. Other entries produce nothing. |
| `Batch.JobsAppend` | main.py:29-38 | Calls follow listing order: the calls for `a + b` are the calls for `a` followed by those for `b`. |
| `Batch.OutputsArePng` | main.py:33-35 | Every call of the batch writes a `.png` path of the form `out/<stem>.png`. |
| `Batch.WrittenPaths` | main.py:23-38 | A path is in the output directory after the run iff it was there before, or some listed, accepted entry maps to it. |
| `Batch.NewFilesArePng` | main.py:33-38 | Every file the run adds to the output directory is a `.png`. |
| `Batch.WrittenByLast` | main.py:34-38 | A path some accepted entry maps to holds the image, squared on a transparent canvas, of the last such entry. Later entries overwrite earlier ones and any file that was there before. |
| `Batch.UntouchedKept` | main.py:23-38 | A file already in the output directory that no accepted entry maps to is left as it was. |
| `Batch.WrittenAreSquare` | main.py:4-38 | Every file the run writes is a square image, with side equal to the longer side of the image it was made from. |
| `Batch.NothingAccepted` | main.py:29-30 | A listing with no accepted entry makes no call and leaves the output directory as it was. |

## Left out

- Decoding and encoding (`Image.open(...).convert("RGBA")`, `save`) are image-library code. The batch takes a `decode` function from path to RGBA image. `MakeSquareImage` takes the decoded image as an array. A saved file is the image value stored under its path.
- The image library's compositing under an alpha mask is library code, so `blend` is a parameter. Lemmas that need a fact about it take that fact as a hypothesis, for example that opaque pixels pass through.
- `Raster.Paste` requires canvas and source to be different arrays. The only call, in `make_square_image`, pastes an image onto a new canvas.
- `Batch.ProcessAll` computes each output with the value-level `Squared`. `MakeSquareImage` is proved to produce the same contents on arrays.
- Failures are not modelled: an undecodable file or an unwritable path raises and ends the batch. `decode` is total.
- `os.makedirs`, `os.listdir`, and the order in which it lists entries are not modelled. The listing is an input sequence. The output directory is assumed to exist, and its previous contents are the parameter `init`.
- Paths are compared as strings, as on a case-sensitive file system. On a case-insensitive one, `A.png` and `a.png` would also collide; that is not modelled.
- The `print` calls (main.py:37, 40) are console output and are left out.
- `Paths.Lower`: lower-cases only the ASCII letters `A`-`Z`, where Python's `str.lower` covers all of Unicode. The suffix test is unchanged, because no other character lowers to `.`, `p`, `n`, `g`, `j` or `e`.
- `SplitExt` and `Join` follow the POSIX path rules, with `/` as the only separator. The Windows rules (`\` and drive letters) are not modelled.
- Pixel channels are bytes, but no channel arithmetic is modelled, because all of it happens inside `blend`.
