/** `create_gif` as a pure function: a directory listing and the call's
    options in, and out either "no image files" (the early return), the
    name of the first file that cannot be opened (the exception raised from
    `Image.open`, before any writer exists), or the GIF the writer receives:
    its path, its rate and its frames in order. Reading files and resampling
    are parameters: `decode` stands for `Image.open(path).convert("RGB")`,
    `sample` for the pixel colours `img.resize` produces. */
module Pipeline {
  import opened Wrappers
  import opened Selection
  import opened Ordering
  import opened Geometry
  import opened Canvas

  /** A decoded source file: a non-empty RGB raster. */
  type SourceImage = img: Image | img.dims.w > 0 && img.dims.h > 0
    witness Image(Dims(1, 1), (x, y) => Rgb(0, 0, 0))

  /** The colour of pixel `(x, y)` when an image is resampled to a size. */
  type Sampler = (Image, Dims, int, int) -> Rgb

  /** The keyword arguments of `create_gif` that shape the frames. */
  datatype Options = Options(
    fps: int,
    resize: Option<Dims>,
    sortKey: Option<string -> Key>,
    padding: Rgb)

  /** One frame handed to the writer, with the file it came from. */
  datatype Frame = Frame(name: string, image: Image)

  datatype Outcome =
    | NoImages
    | DecodeFailed(name: string)
    | Gif(path: string, fps: int, frames: seq<Frame>)

  /** `img.resize((d.w, d.h), resample)`: an image of exactly the requested
      size, coloured by the resampling filter. */
  function Resize(src: Image, d: Dims, sample: Sampler): (out: Image)
    ensures out.dims == d
    ensures forall x, y :: InRect(x, y, 0, 0, d) ==> out.px(x, y) == sample(src, d, x, y)
  {
    Image(d, (x, y) => sample(src, d, x, y))
  }

  /** The body of the first loop for one decoded file: letterboxed into
      `resize` when it is given, passed through unchanged otherwise. */
  function Normalize(src: SourceImage, resize: Option<Dims>, pad: Rgb, sample: Sampler): (out: Image)
    ensures resize.None? ==> out == src
    ensures resize.Some? ==> out.dims == resize.value
  {
    match resize
    case None => src
    case Some(box) => Letterbox(Resize(src, Place(src.dims, box).inner, sample), box, pad)
  }

  /** With `resize`, the frame shows the resampled image inside the
      rectangle `Place` computes and the padding colour everywhere else. */
  lemma NormalizeLetterboxes(src: SourceImage, box: Dims, pad: Rgb, sample: Sampler)
    ensures
      var out := Normalize(src, Some(box), pad, sample);
      var p := Place(src.dims, box);
      && (forall i, j :: InRect(i, j, 0, 0, p.inner) ==> out.px(p.x + i, p.y + j) == sample(src, p.inner, i, j))
      && (forall x, y :: InRect(x, y, 0, 0, box) && !InRect(x, y, p.x, p.y, p.inner) ==> out.px(x, y) == pad)
  {
    var p := Place(src.dims, box);
    var scaled := Resize(src, p.inner, sample);
    assert scaled.dims == p.inner;
  }

  datatype Rendered = Frames(frames: seq<Frame>) | Unreadable(at: nat)

  /** The first loop over the ordered names: every file is opened and
      normalised in turn, and the first one that cannot be opened stops the
      loop. */
  function RenderAll(names: seq<string>, opts: Options, decode: string -> Option<SourceImage>, sample: Sampler): (r: Rendered)
    ensures r.Frames? <==> forall i :: 0 <= i < |names| ==> decode(names[i]).Some?
    ensures r.Frames? ==>
      && |r.frames| == |names|
      && forall i :: 0 <= i < |names| ==>
           && r.frames[i].name == names[i]
           && decode(names[i]).Some?
           && r.frames[i].image == Normalize(decode(names[i]).value, opts.resize, opts.padding, sample)
    ensures r.Unreadable? ==>
      && r.at < |names|
      && decode(names[r.at]).None?
      && forall i :: 0 <= i < r.at ==> decode(names[i]).Some?
  {
    if names == [] then Frames([])
    else match decode(names[0])
      case None => Unreadable(0)
      case Some(img) =>
        var head := Frame(names[0], Normalize(img, opts.resize, opts.padding, sample));
        match RenderAll(names[1..], opts, decode, sample)
        case Unreadable(at) => Unreadable(at + 1)
        case Frames(rest) => Frames([head] + rest)
  }

  /** The names of the frames, in order. */
  function FrameNames(frames: seq<Frame>): (names: seq<string>)
    ensures |names| == |frames|
  {
    seq(|frames|, i requires 0 <= i < |frames| => frames[i].name)
  }

  /** The outcome once the selection is non-empty and sorted into `ordered`:
      the first name in `ordered` that cannot be opened aborts the call,
      otherwise the writer receives one frame per name, in order. */
  function Conclude(
    ordered: seq<string>, outputPath: string, opts: Options,
    decode: string -> Option<SourceImage>, sample: Sampler): (o: Outcome)
    ensures !o.NoImages?
    ensures o.Gif? <==> forall i :: 0 <= i < |ordered| ==> decode(ordered[i]).Some?
    ensures o.DecodeFailed? ==>
      exists i :: 0 <= i < |ordered|
        && ordered[i] == o.name
        && decode(o.name).None?
        && forall j :: 0 <= j < i ==> decode(ordered[j]).Some?
    ensures o.Gif? ==>
      && o.path == outputPath
      && o.fps == opts.fps
      && FrameNames(o.frames) == ordered
      && (forall i :: 0 <= i < |o.frames| ==>
            && decode(o.frames[i].name).Some?
            && o.frames[i].image == Normalize(decode(o.frames[i].name).value, opts.resize, opts.padding, sample))
  {
    match RenderAll(ordered, opts, decode, sample)
    case Unreadable(at) => DecodeFailed(ordered[at])
    case Frames(frames) =>
      assert forall i :: 0 <= i < |frames| ==> FrameNames(frames)[i] == ordered[i];
      Gif(outputPath, opts.fps, frames)
  }

  /** `create_gif(image_folder, output_path, fps, resize, sort_key,
      padding_color)` on a folder whose entries are `listing`. */
  function CreateGif(
    listing: seq<string>, outputPath: string, opts: Options,
    decode: string -> Option<SourceImage>, sample: Sampler): (o: Outcome)
    ensures o.NoImages? <==> forall n :: n in listing ==> !IsImageName(n)
    ensures o.DecodeFailed? ==> o.name in listing && IsImageName(o.name) && decode(o.name).None?
    ensures o.DecodeFailed? ==>
      exists i :: 0 <= i < |Order(Select(listing), opts.sortKey)|
        && Order(Select(listing), opts.sortKey)[i] == o.name
        && forall j :: 0 <= j < i ==> decode(Order(Select(listing), opts.sortKey)[j]).Some?
    ensures o.Gif? ==>
      && o.path == outputPath
      && o.fps == opts.fps
      && FrameNames(o.frames) == Order(Select(listing), opts.sortKey)
      && (forall i :: 0 <= i < |o.frames| ==>
            && decode(o.frames[i].name).Some?
            && o.frames[i].image == Normalize(decode(o.frames[i].name).value, opts.resize, opts.padding, sample))
  {
    var images := Select(listing);
    NothingSelected(listing);
    if images == [] then NoImages
    else
      var ordered := Order(images, opts.sortKey);
      var o := Conclude(ordered, outputPath, opts, decode, sample);
      assert o.DecodeFailed? ==> o.name in multiset(ordered);
      o
  }

  /** The GIF is written exactly when some file is selected and every
      selected file can be opened; otherwise no writer is created. */
  lemma GifExactlyWhenAllDecode(
    listing: seq<string>, outputPath: string, opts: Options,
    decode: string -> Option<SourceImage>, sample: Sampler)
    ensures CreateGif(listing, outputPath, opts, decode, sample).Gif? <==>
      Select(listing) != [] && forall n :: n in Select(listing) ==> decode(n).Some?
  {
    var images := Select(listing);
    if images != [] {
      var ordered := Order(images, opts.sortKey);
      assert CreateGif(listing, outputPath, opts, decode, sample) == Conclude(ordered, outputPath, opts, decode, sample);
      forall n | n in images ensures n in ordered {
        assert n in multiset(ordered);
      }
      forall i | 0 <= i < |ordered| ensures ordered[i] in images {
        assert ordered[i] in multiset(images);
      }
    }
  }

  lemma {:induction false} SelectTies(listing: seq<string>, key: string -> Key, k: Key)
    ensures Ties(Select(listing), key, k) == Select(Ties(listing, key, k))
  {
    if listing != [] {
      SelectTies(listing[1..], key, k);
      var head := if IsImageName(listing[0]) then [listing[0]] else [];
      assert Select(listing) == head + Select(listing[1..]);
      var t := if key(listing[0]) == k then [listing[0]] else [];
      assert Ties(listing, key, k) == t + Ties(listing[1..], key, k);
      SelectAppend(t, Ties(listing[1..], key, k));
      assert Ties(head + Select(listing[1..]), key, k) == Ties(head, key, k) + Ties(Select(listing[1..]), key, k) by {
        TiesAppend(head, Select(listing[1..]), key, k);
      }
    }
  }

  /** The writer receives exactly one frame per selected file: the frame
      names are a permutation of the selected names. */
  lemma FramesPermuteSelection(
    listing: seq<string>, outputPath: string, opts: Options,
    decode: string -> Option<SourceImage>, sample: Sampler)
    requires CreateGif(listing, outputPath, opts, decode, sample).Gif?
    ensures
      var names := FrameNames(CreateGif(listing, outputPath, opts, decode, sample).frames);
      && |names| == |Select(listing)| > 0
      && multiset(names) == multiset(Select(listing))
  {
  }

  /** The frames come out nondecreasing in the sort key. */
  lemma FramesSortedByKey(
    listing: seq<string>, outputPath: string, opts: Options,
    decode: string -> Option<SourceImage>, sample: Sampler)
    requires CreateGif(listing, outputPath, opts, decode, sample).Gif?
    ensures Sorted(FrameNames(CreateGif(listing, outputPath, opts, decode, sample).frames), KeyOf(opts.sortKey))
  {
  }

  /** Files with equal sort keys are written in the order the directory
      listed them. */
  lemma FramesKeepListingOrder(
    listing: seq<string>, outputPath: string, opts: Options,
    decode: string -> Option<SourceImage>, sample: Sampler, k: Key)
    requires CreateGif(listing, outputPath, opts, decode, sample).Gif?
    ensures
      Ties(FrameNames(CreateGif(listing, outputPath, opts, decode, sample).frames), KeyOf(opts.sortKey), k)
      == Select(Ties(listing, KeyOf(opts.sortKey), k))
  {
    SelectTies(listing, KeyOf(opts.sortKey), k);
  }

  /** One letterboxed frame: the box size, the resampled source inside the
      rectangle `Place` computes, the padding colour everywhere else. */
  ghost predicate Letterboxed(frame: Image, src: SourceImage, box: Dims, pad: Rgb, sample: Sampler)
  {
    var p := Place(src.dims, box);
    && frame.dims == box
    && (forall a, b :: InRect(a, b, 0, 0, p.inner) ==>
          frame.px(p.x + a, p.y + b) == sample(src, p.inner, a, b))
    && (forall x, y :: InRect(x, y, 0, 0, box) && !InRect(x, y, p.x, p.y, p.inner) ==>
          frame.px(x, y) == pad)
  }

  lemma FrameLetterboxed(frame: Image, src: SourceImage, box: Dims, pad: Rgb, sample: Sampler)
    requires frame == Normalize(src, Some(box), pad, sample)
    ensures Letterboxed(frame, src, box, pad, sample)
  {
    NormalizeLetterboxes(src, box, pad, sample);
  }

  /** With `resize=(max_w, max_h)`, every frame is exactly `max_w x max_h`,
      shows its resampled source inside the centred rectangle `Place`
      computes, and is the padding colour everywhere else. */
  lemma FramesFillBox(
    listing: seq<string>, outputPath: string, opts: Options,
    decode: string -> Option<SourceImage>, sample: Sampler)
    requires opts.resize.Some?
    requires CreateGif(listing, outputPath, opts, decode, sample).Gif?
    ensures
      var frames := CreateGif(listing, outputPath, opts, decode, sample).frames;
      forall i :: 0 <= i < |frames| ==>
        && decode(frames[i].name).Some?
        && Letterboxed(frames[i].image, decode(frames[i].name).value, opts.resize.value, opts.padding, sample)
  {
    var frames := CreateGif(listing, outputPath, opts, decode, sample).frames;
    forall i | 0 <= i < |frames|
      ensures decode(frames[i].name).Some?
      ensures Letterboxed(frames[i].image, decode(frames[i].name).value, opts.resize.value, opts.padding, sample)
    {
      FrameLetterboxed(frames[i].image, decode(frames[i].name).value, opts.resize.value, opts.padding, sample);
    }
  }

  /** Without `resize`, every frame is its decoded source, unchanged. */
  lemma FramesKeepNativeSize(
    listing: seq<string>, outputPath: string, opts: Options,
    decode: string -> Option<SourceImage>, sample: Sampler)
    requires opts.resize.None?
    requires CreateGif(listing, outputPath, opts, decode, sample).Gif?
    ensures
      var frames := CreateGif(listing, outputPath, opts, decode, sample).frames;
      forall i :: 0 <= i < |frames| ==>
        decode(frames[i].name).Some? && frames[i].image == decode(frames[i].name).value
  {
    var frames := CreateGif(listing, outputPath, opts, decode, sample).frames;
    assert forall i :: 0 <= i < |frames| ==> FrameNames(frames)[i] == frames[i].name;
  }
}
