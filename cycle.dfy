/** One wake-up of the badge, from the response headers on: the refresh
    gate, the magic, the format branch, the frame handed to the display and
    the timestamp written back. */
module Cycle {
  import opened Errors
  import opened Bytes
  import opened Sink
  import opened ChunkReader
  import opened Format
  import opened Rle
  import opened BmpDecode
  import opened RefreshGate

  /** The display's resolution and the `white` and `black` entries of the
      board's colour table. */
  datatype Panel = Panel(width: nat, height: nat, white: int, black: int)

  /** A frame as handed to the display: the bitmap and its pixel shader. */
  datatype Frame = Frame(image: Image, shader: seq<int>)

  /** How a wake-up ends: no new image, a new image shown and remembered,
      or an exception, after which the frame may already be on the display. */
  datatype CycleResult =
    | Skipped(sleepSeconds: int)
    | Rendered(frame: Frame, sleepSeconds: int)
    | Crashed(failure: Failure, shown: Option<Frame>)

  /** The Z2 branch on the chunks after the magic: a bitmap the size of the
      display with two colours, white for index 0 and black for index 1,
      filled by the runs from pixel 0 on. */
  function Z2Spec(panel: Panel, rest: seq<seq<byte>>): (r: Result<Image>)
    ensures r.Ok? ==> r.value.width == panel.width && r.value.height == panel.height && r.value.colorCount == 2
    ensures r.Ok? ==> r.value.palette == Bound([panel.white, panel.black])
    ensures r.Err? ==> r.failure == PixelWriteRejected
  {
    var px := Expand(Flatten(rest));
    var size := Area(panel.width, panel.height);
    if Writable(0, px, size, 2) then
      Ok(Image(panel.width, panel.height, 2, Overwrite(Blank(size), 0, px), Bound([panel.white, panel.black])))
    else Err(PixelWriteRejected)
  }

  /** `bitmap = displayio.Bitmap(display.width, display.height, 2)`, the
      two-entry palette, then the run-length loop. */
  method DecodeZ2Image(panel: Panel, source: ByteStream) returns (r: Result<Image>)
    modifies source
    ensures r == Z2Spec(panel, old(source.polls))
    ensures r.Ok? ==> source.polls == []
  {
    var bm := new Bitmap(panel.width, panel.height, 2);
    var palette := [panel.white, panel.black];
    var painted := DecodeZ2(bm, source);
    if painted.Fail? {
      return Err(painted.failure);
    }
    return Ok(Image(panel.width, panel.height, 2, bm.pixels[..], Bound(palette)));
  }

  /** `displayio.Bitmap(1, 1, 1)` of the Z1, Z3 and unknown branches, which
      assign no palette: one pixel, of the only colour. */
  function Placeholder(): (img: Image)
    ensures img.width == 1 && img.height == 1 && img.colorCount == 1
    ensures img.pixels == Blank(Area(1, 1)) && img.palette.Unbound?
  {
    Image(1, 1, 1, [0], Unbound)
  }

  /** The format branch on the chunks after the magic. */
  function BodySpec(panel: Panel, f: Format, rest: seq<seq<byte>>): (r: Result<Image>)
    ensures IsFallback(f) ==> r == Ok(Placeholder())
    ensures f == Z2 ==> r == Z2Spec(panel, rest)
    ensures f == BMP ==> r == DecodeBmpSpec(rest)
  {
    match f
    case Z2 => Z2Spec(panel, rest)
    case BMP => DecodeBmpSpec(rest)
    case _ => Ok(Placeholder())
  }

  /** `if chunk == b"Z2": ... elif chunk == b"BM": ... else: ...`. */
  method DecodeBody(panel: Panel, f: Format, source: ByteStream) returns (r: Result<Image>)
    modifies source
    ensures r == BodySpec(panel, f, old(source.polls))
    ensures IsFallback(f) ==> source.polls == old(source.polls)
    ensures r.Ok? && !IsFallback(f) ==> source.polls == []
  {
    match f
    case Z2 =>
      r := DecodeZ2Image(panel, source);
    case BMP =>
      r := DecodeBmp(source);
    case _ =>
      var bm := new Bitmap(1, 1, 1);
      assert bm.pixels[..] == [0];
      r := Ok(Image(bm.width, bm.height, bm.colorCount, bm.pixels[..], Unbound));
  }

  /** A frame whose pixels are all entries of its palette: the bitmap has
      `width * height` pixels, each below the colour count, and a bound
      palette has one entry per colour. */
  predicate WellFormed(img: Image)
  {
    && |img.pixels| == Area(img.width, img.height)
    && IndicesBelow(img.pixels, img.colorCount)
    && (img.palette.Bound? ==> |img.palette.colors| == img.colorCount)
  }

  /** Every format branch that completes yields a well-formed image. */
  lemma BodyWellFormed(panel: Panel, f: Format, rest: seq<seq<byte>>)
    requires BodySpec(panel, f, rest).Ok?
    ensures WellFormed(BodySpec(panel, f, rest).value)
  {
    match f
    case Z2 =>
      var px := Expand(Flatten(rest));
      var size := Area(panel.width, panel.height);
      OverwriteBelow(Blank(size), 0, px, 2);
    case BMP =>
      BmpImageShape(rest);
    case _ =>
  }

  /** `pixel_shader=palette` as written: the Z1, Z3 and unknown branches
      never assign `palette`, so reading it raises UnboundLocalError. */
  function ShaderAsWritten(img: Image): (r: Result<seq<int>>)
    ensures r.Ok? <==> img.palette.Bound?
  {
    match img.palette
    case Bound(colors) => Ok(colors)
    case Unbound => Err(PaletteUnbound)
  }

  /** As written, every placeholder branch stops at the shader. */
  lemma PlaceholderCrashesAsWritten(panel: Panel, f: Format, rest: seq<seq<byte>>)
    requires IsFallback(f)
    ensures BodySpec(panel, f, rest).Ok?
    ensures ShaderAsWritten(BodySpec(panel, f, rest).value) == Err(PaletteUnbound)
  {
  }

  /** The shader the display gets: the branch's palette, or for the
      placeholder a one-entry white palette for its single colour. */
  function Shader(panel: Panel, img: Image): (shader: seq<int>)
    ensures img.palette.Bound? ==> shader == img.palette.colors
    ensures img.palette.Unbound? ==> shader == [panel.white]
  {
    match img.palette
    case Bound(colors) => colors
    case Unbound => [panel.white]
  }

  /** With the corrected shader, every image a branch yields is shown with a
      palette entry for each of its colours, the placeholder included. */
  lemma ShaderCoversColors(panel: Panel, f: Format, rest: seq<seq<byte>>)
    requires BodySpec(panel, f, rest).Ok?
    ensures var img := BodySpec(panel, f, rest).value;
      && |Shader(panel, img)| == img.colorCount
      && IndicesBelow(img.pixels, |Shader(panel, img)|)
  {
    BodyWellFormed(panel, f, rest);
  }

  /** The magic and the format branch on a stream that will yield `polls`. */
  function ImageSpec(panel: Panel, polls: seq<seq<byte>>): (r: Result<Image>)
    ensures r.Ok? ==> WellFormed(r.value)
  {
    match Collect([], 2, polls)
    case Err(e) => Err(e)
    case Ok(magic) =>
      var body := BodySpec(panel, Detect(magic.data), magic.rest);
      if body.Err? then body
      else BodyWellFormed(panel, Detect(magic.data), magic.rest); body
  }

  /** The chunks a completed decode leaves unread: the Z2 and BM branches
      read the stream to its end, the placeholder branches stop after the
      magic. */
  function LeftUnread(polls: seq<seq<byte>>): (rest: seq<seq<byte>>)
  {
    match Collect([], 2, polls)
    case Err(_) => []
    case Ok(magic) => if IsFallback(Detect(magic.data)) then magic.rest else []
  }

  /** `chunk = get_chunk(2)` and the branch it selects. */
  method DecodeImage(panel: Panel, source: ByteStream) returns (r: Result<Image>)
    modifies source
    ensures r == ImageSpec(panel, old(source.polls))
    ensures r.Ok? ==> source.polls == LeftUnread(old(source.polls))
  {
    var magic := GetChunk(source, 2, []);
    if magic.Err? {
      return Err(magic.failure);
    }
    r := DecodeBody(panel, Detect(magic.value), source);
  }

  /** The wake-up from the headers on, on a stream that will yield `polls`
      and a non-volatile memory holding `nvm`. */
  function CycleSpec(panel: Panel, headers: Headers, nvm: seq<byte>, polls: seq<seq<byte>>): (c: CycleResult)
    requires |nvm| >= 4
    ensures c.Skipped? <==> !IsNewImage(ReadSchedule(headers), nvm)
    ensures c.Skipped? ==> c.sleepSeconds == ReadSchedule(headers).sleepSeconds
    ensures c.Rendered? ==> c.sleepSeconds == ReadSchedule(headers).sleepSeconds
    ensures c.Rendered? ==> 0 <= ReadSchedule(headers).timestamp < Pow2(32)
  {
    var schedule := ReadSchedule(headers);
    if !IsNewImage(schedule, nvm) then Skipped(schedule.sleepSeconds)
    else
      match ImageSpec(panel, polls)
      case Err(e) => Crashed(e, None)
      case Ok(img) =>
        var frame := Frame(img, Shader(panel, img));
        if 0 <= schedule.timestamp < Pow2(32) then Rendered(frame, schedule.sleepSeconds)
        else Crashed(TimestampOutOfRange, Some(frame))
  }

  /** The `with requests.get(URL, stream=True) as resp:` block: the gate,
      the magic, the branch, the frame handed to the display, then the
      timestamp written to the non-volatile memory. */
  method RunCycle(panel: Panel, headers: Headers, nvm: array<byte>, source: ByteStream) returns (c: CycleResult)
    requires nvm.Length >= 4
    modifies nvm, source
    ensures c == CycleSpec(panel, headers, old(nvm[..]), old(source.polls))
    ensures c.Rendered? ==> StoredStamp(nvm[..]) == ReadSchedule(headers).timestamp && nvm[4..] == old(nvm[4..])
    ensures !c.Rendered? ==> nvm[..] == old(nvm[..])
    ensures c.Skipped? ==> source.polls == old(source.polls)
    ensures c.Rendered? || (c.Crashed? && c.shown.Some?) ==> source.polls == LeftUnread(old(source.polls))
  {
    var schedule := ReadSchedule(headers);
    var stored := LeValue(nvm[..4]);
    if schedule.timestamp == stored {
      return Skipped(schedule.sleepSeconds);
    }
    var img := DecodeImage(panel, source);
    if img.Err? {
      return Crashed(img.failure, None);
    }
    var frame := Frame(img.value, Shader(panel, img.value));
    var persisted := Persist(nvm, schedule.timestamp);
    if persisted.Fail? {
      return Crashed(persisted.failure, Some(frame));
    }
    return Rendered(frame, schedule.sleepSeconds);
  }

  /** A rendered frame is remembered: the next wake-up offered the same
      timestamp leaves the display and the memory alone. */
  lemma RenderedThenSkipped(panel: Panel, headers: Headers, nvm: seq<byte>, polls: seq<seq<byte>>,
                            later: seq<seq<byte>>)
    requires |nvm| >= 4
    requires CycleSpec(panel, headers, nvm, polls).Rendered?
    ensures var after := LeEncode(ReadSchedule(headers).timestamp, 4) + nvm[4..];
      && |after| == |nvm|
      && CycleSpec(panel, headers, after, later) == Skipped(ReadSchedule(headers).sleepSeconds)
  {
    PersistThenSkip(nvm, ReadSchedule(headers).timestamp);
  }

  /** Every frame the display is given shows only colours of its shader. */
  lemma RenderedFrameWellFormed(panel: Panel, headers: Headers, nvm: seq<byte>, polls: seq<seq<byte>>)
    requires |nvm| >= 4
    requires CycleSpec(panel, headers, nvm, polls).Rendered?
    ensures var frame := CycleSpec(panel, headers, nvm, polls).frame;
      && WellFormed(frame.image)
      && |frame.shader| == frame.image.colorCount
  {
    var magic := Collect([], 2, polls).value;
    ShaderCoversColors(panel, Detect(magic.data), magic.rest);
  }
}
