# create_gif: frame selection, ordering and letterbox geometry in Dafny

This project models the frame-preparation core of `create_gif` from the
pics-dl repository. The function is defined twice, in `cvrt_gif.py` and in
`cvrt-gif.py`. The two definitions hold the same statements; the second has
two extra comment lines. One model covers both. The table below cites each
file in turn.

`create_gif(image_folder, output_path, fps, resize, sort_key, padding_color)`
does the following:

1. It keeps the directory entries whose lower-cased name ends with `.png`,
   `.jpg` or `.jpeg`.
2. It returns early, with no frames and no writer, when no entry is kept.
3. It sorts the kept names, by default string order or by `sort_key`.
4. It opens each file as RGB. When `resize=(max_w, max_h)` is given, it scales
   the image by `min(max_w/orig_w, max_h/orig_h)`, truncates the scaled size,
   and pastes the result centred on a `max_w x max_h` canvas filled with
   `padding_color`.
5. It hands the frames, in order, to a GIF writer.

The modules follow those steps:

- `Wrappers` (wrappers.dfy) defines `Option`.
- `Selection` (selection.dfy) models the suffix filter.
- `Ordering` (ordering.dfy) models Python's stable list sort.
  - A sort key is a sequence of integers compared lexicographically. That is
    how Python compares strings (by code point) and tuples of integers. A
    key that returns an integer `n` is modelled as `[n]`.
  - The default sort uses the name's code points as the key.
- `Geometry` (geometry.dfy) computes the ratio, the truncated size and the
  centring offset.
  - The ratio is the exact rational value that the float expression
    approximates. Its
    contract is stated with Dafny's `real`.
  - The body computes the same numbers with integer cross-multiplication.
- `Canvas` (canvas.dfy) models the RGB raster, `Image.new` and `canvas.paste`.
- `Pipeline` (pipeline.dfy) models the whole call. It is a pure function from
  a directory listing and the options to one of three outcomes:
  - `NoImages`: the early return.
  - `DecodeFailed(name)`: the first file, in sorted order, that `Image.open`
    cannot read. All frames are loaded before the writer is opened, so in this
    case no writer exists.
  - `Gif(path, fps, frames)`: what the writer receives.

Three things are parameters rather than code: the directory listing, file
decoding (`decode`) and the resampling filter's pixel colours (`sample`).

Line correspondence between the two files:

- Lines 7-40 are the same in both files. Line 6 is `import argparse` in `cvrt_gif.py` and blank in `cvrt-gif.py`.
- Line `n` of `cvrt_gif.py` for `n` in 41-58 is line `n+1` of `cvrt-gif.py`.
- Line `n` of `cvrt_gif.py` for `n` in 59-73 is line `n+2` of `cvrt-gif.py`.

## Model

| member | source | states |
|---|---|---|
| `Selection.Select` | cvrt_gif.py:27-28 | A name is kept iff its lower-cased form ends with `.png`, `.jpg` or `.jpeg`, and each kept name appears as many times as in the listing |
| `Selection.SelectAppend` | cvrt-gif.py:27-28 | The comprehension keeps listing order: filtering `a + b` gives filter(a) followed by filter(b) |
| `Selection.NothingSelected` | cvrt_gif.py:30-32 | The early return fires exactly when no entry of the listing has an image suffix |
| `Selection.ImageNameIsExtension` | cvrt-gif.py:27-28 | The suffix test holds iff the name has a dot and the text after its last dot is `png`, `jpg` or `jpeg` in any letter case |
| `Selection.KeptExamples` | cvrt_gif.py:28 | `p1.JPG` and `p2.Jpeg` are kept: the suffix test ignores letter case |
| `Selection.DroppedExamples` | cvrt-gif.py:28 | `p3.txt` and `p4.png.bak` are dropped: only the final suffix counts |
| `Ordering.SortBy` | cvrt_gif.py:34-37 | The sorted list is a permutation of its input, is nondecreasing in the key, and keeps each class of equal keys in input order (stability) |
| `Ordering.SortByUnique` | cvrt-gif.py:34-37 | Any list that is nondecreasing in the key and keeps every key class in input order equals the model's sort, so any stable sort gives the same frame order |
| `Ordering.DefaultOrderAscending` | cvrt_gif.py:36-37 | Without `sort_key`, the names come out in ascending code-point order as a permutation of the input; distinct names come out strictly ascending, with distinct code-point keys |
| `Ordering.StableKeyExample` | cvrt-gif.py:34-35 | Under the key `NameLength`, which only sees name length, `cc.png` and `bb.png` tie and keep their listing order behind `a.png` |
| `Ordering.DefaultOrderExample` | cvrt-gif.py:36-37 | Without `sort_key`, `p10.png` comes before `p2.png`: the default order is string order, not numeric |
| `Geometry.ScaledSize` | cvrt_gif.py:55-56 | Each scaled side is the floor of the source side times the exact `min(max_w/orig_w, max_h/orig_h)` |
| `Geometry.ScaledSizeFits` | cvrt-gif.py:56-57 | `new_w <= max_w` and `new_h <= max_h`, and, with exact arithmetic, at least one side equals its bound |
| `Geometry.RatioIsLargestFit` | cvrt_gif.py:55 | The ratio keeps both scaled sides within the box, and every larger factor breaks one of them |
| `Geometry.CentreOffset` | cvrt-gif.py:62 | With `inner <= outer`, `(outer - inner) // 2` is nonnegative and keeps `offset + inner <= outer`; the left margin is at most the right margin, and at most one pixel smaller |
| `Geometry.Place` | cvrt_gif.py:53-60 | The pasted rectangle has the scaled size `ScaledSize` gives (each side the floor of the source side times the ratio, so the aspect ratio is kept), lies inside the `max_w x max_h` canvas, touches the box on one side with exact arithmetic, and is centred with any odd pixel of slack going right or down |
| `Geometry.LandscapeExample` | cvrt-gif.py:56-62 | A 1024 x 768 source in a 512 x 512 box becomes 512 x 384 at offset (0, 64) |
| `Geometry.ThinSourceExample` | cvrt_gif.py:55-56 | A 1 x 2000 source in a 512 x 512 box gets scaled width 0: no side is kept positive |
| `Canvas.Blank` | cvrt-gif.py:61 | The new canvas has the requested size and every pixel is the fill colour |
| `Canvas.Paste` | cvrt_gif.py:61 | Every pasted pixel that lands on the canvas is copied to its shifted position, and every canvas pixel outside the pasted rectangle is unchanged |
| `Canvas.Letterbox` | cvrt-gif.py:61-64 | The frame is exactly the box size; when the scaled image fits, all of it appears at the centring offset and every other pixel is the padding colour |
| `Pipeline.Resize` | cvrt_gif.py:57 | The resized image has exactly the requested size; its colours come from the resampling filter |
| `Pipeline.Normalize` | cvrt-gif.py:53-66 | With `resize` the frame is exactly `max_w x max_h`; without it the frame is the decoded image unchanged |
| `Pipeline.NormalizeLetterboxes` | cvrt_gif.py:52-62 | With `resize`, the frame shows the resampled source inside the rectangle `Place` computes and `padding_color` everywhere else |
| `Pipeline.RenderAll` | cvrt_gif.py:48-66 | The loop yields frames iff every name can be opened, then one frame per name in the same order; otherwise it stops at the first name that cannot be opened |
| `Pipeline.Conclude` | cvrt_gif.py:48-71 | After sorting: the writer is reached iff every name can be opened; otherwise the call reports the first name, in sorted order, that cannot be opened; a written GIF lists the frames in sorted order, each frame the normalised image of its file |
| `Pipeline.CreateGif` | cvrt-gif.py:27-73 | No frames and no writer iff no name is selected; a decode failure names a selected file that cannot be opened and that is the first such file in sorted order; a written GIF has the caller's path and fps and frame names equal to the sorted selected names, each frame the normalised (resized and padded, or unchanged) image of its file |
| `Pipeline.GifExactlyWhenAllDecode` | cvrt_gif.py:30-71 | The writer receives frames iff the selection is non-empty and every selected file can be opened |
| `Pipeline.FramesPermuteSelection` | cvrt-gif.py:27-73 | The writer gets exactly one frame per selected file: the frame names are a non-empty permutation of the selection |
| `Pipeline.FramesSortedByKey` | cvrt_gif.py:34-71 | The frame names are nondecreasing in the sort key (code points by default, `sort_key` otherwise) |
| `Pipeline.FramesKeepListingOrder` | cvrt-gif.py:34-73 | Files whose sort keys are equal appear among the frames in the order the directory listed them |
| `Pipeline.FramesFillBox` | cvrt_gif.py:52-71 | With `resize`, every written frame is exactly `max_w x max_h`, shows its resampled source inside the centred rectangle, and is `padding_color` outside it |
| `Pipeline.FramesKeepNativeSize` | cvrt-gif.py:65-68 | Without `resize`, every written frame is its decoded source unchanged, at its native size |

## Left out

- `dl.py` (crawler) is not part of this model. It is HTTP requests, HTML scraping, sleeps and file writes.
- `batch_gif.py` (CSV driver) is not part of this model. It passes `chunk_size=180`, which `create_gif` does not accept.
- Chunk partitioning and `_pN` output naming are not implemented in either `create_gif`, so they are not modelled.
- Pixel resampling (LANCZOS or ANTIALIAS) is the `sample` parameter. The model fixes only the size of the resampled image.
- `Image.open(...).convert("RGB")` is the `decode` parameter. It returns a non-empty RGB raster (a size and a colour per pixel) or `None`, so any open or decode exception becomes `None`.
- `np.array` conversion, the imageio writer and its use of `fps` are left out. A written GIF is the list of frames the writer receives, with the path and `fps` passed through unchanged. Writer failures are not modelled.
- `Geometry.ScaledSizeFits`: states that one side equals its bound under exact arithmetic. With binary floating point a side can come out one pixel short, e.g. a 1 x 197 source in a 512 x 512 box gives 197 * (512/197) = 511.99999999999994, truncated to 511, so neither side touches the box.
- `Geometry.Place`: touches the box on one side only under exact arithmetic, for the same reason as `Geometry.ScaledSizeFits`.
- `Geometry.ScaledSize`: does not model float rounding. The source computes `ratio`, `orig * ratio` and `int(...)` in binary floating point, which can give one pixel less than the exact value the model uses.
- `Selection.Select`: names are Dafny strings, whose characters cannot be surrogate code points. `os.listdir` returns undecodable file-name bytes as lone surrogates U+DC80-U+DCFF, so such names cannot be represented.
- `Selection.Select`: `str.lower()` is modelled on ASCII letters only. Other characters count as their own lower case; no non-ASCII lower-case mapping produces the letters of the three suffixes.
- `Ordering.SortBy`: keys are integer sequences. Keys of other types (floats, mixed tuples) and key functions that raise are not modelled.
- `resize` sides and the source size are natural numbers. Negative sizes, which the image library rejects, are not modelled.
- Padding colour channels are bytes. Out-of-range tuples are not modelled.
- `Pipeline.CreateGif`: resizing to a zero-width or zero-height target is not modelled as a failure. When a thin source scales to a side of 0 (see `Geometry.ThinSourceExample`), the image library rejects the resize, so the program raises and writes no GIF. The model writes an all-padding frame instead.
- `Pipeline.GifExactlyWhenAllDecode`: for the same reason as `Pipeline.CreateGif`, the model reaches the writer for a thin source where the program raises at the resize.
- `os.listdir` is the `listing` parameter. A missing folder and concurrent changes to the folder are not modelled.
- Progress output (`print`, `tqdm`), the argparse command line and the `__main__` examples are not modelled.

Facts about the code that the model follows:

- The scaled size is truncated with `int(...)`.
- Without `resize`, frames keep their native sizes.
- All frames are decoded before the writer is opened.
- A file that cannot be opened aborts the whole call.
- There is no chunking.
