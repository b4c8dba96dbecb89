/** Channel access, edge detection and hole filling on images
    (src/imageutils.cpp). Every read in the source goes through gd.h's
    `gdImageGetPixel`, which joins the lanes with `&` and so always returns
    0 (Gd.GetPixelAsWrittenIsZero). Each operation that reads pixels is
    modelled twice: with that reader as written (the `AsWritten` members,
    whose contracts say what the program really does), and with the reader
    that joins the lanes with `|` (Gd.GetPixel), whose contracts say what
    the operation is evidently meant to do. */
module ImageUtils {
  import opened IoUtils
  import Gd

  /** `Channel`: which component of a colour an operation reads or writes. */
  datatype Channel = GreyChannel | RedChannel | GreenChannel | BlueChannel

  /** `PIXELS_FOR_INTERP`: how many coloured neighbours a hole needs. */
  const PIXELS_FOR_INTERP: nat := 2

  // ------------------------------------------------------------ wrapping

  /** One coordinate of `wrappedGetPixel`: at most one step back into
      [0, n) from either side. */
  function Wrap(v: int, n: int): (r: int)
    requires -n <= v < 2 * n
    ensures 0 <= r < n
    ensures r == v % n
    ensures 0 <= v < n ==> r == v
  {
    if v < 0 then DivModUnique(v, n, -1, v + n); v + n
    else if v >= n then DivModUnique(v, n, 1, v - n); v - n
    else DivModUnique(v, n, 0, v); v
  }

  /** The wrapped coordinates are in range. */
  predicate InWrapRange(im: Gd.Image, x: int, y: int)
  {
    -im.width <= x < 2 * im.width && -im.height <= y < 2 * im.height
  }

  /** `wrappedGetPixel`: the pixel at (x mod width, y mod height). */
  function WrappedGetPixel(im: Gd.Image, x: int, y: int): (c: Gd.Color)
    requires Gd.Valid(im) && InWrapRange(im, x, y)
  {
    Gd.GetPixel(im, Wrap(x, im.width), Wrap(y, im.height))
  }

  /** The wrapped read is the read at the coordinates reduced modulo the
      image's size. */
  lemma WrappedGetPixelIsModular(im: Gd.Image, x: int, y: int)
    requires Gd.Valid(im) && InWrapRange(im, x, y)
    ensures Gd.InBounds(im, x % im.width, y % im.height)
    ensures WrappedGetPixel(im, x, y) == Gd.GetPixel(im, x % im.width, y % im.height)
  {
  }

  /** Within the image, wrapping changes nothing; one image width or height
      away, it reads the same pixel. */
  lemma WrappedGetPixelPeriodic(im: Gd.Image, x: int, y: int)
    requires Gd.Valid(im) && Gd.InBounds(im, x, y)
    ensures WrappedGetPixel(im, x, y) == Gd.GetPixel(im, x, y)
    ensures WrappedGetPixel(im, x - im.width, y) == Gd.GetPixel(im, x, y)
    ensures WrappedGetPixel(im, x + im.width, y) == Gd.GetPixel(im, x, y)
    ensures WrappedGetPixel(im, x, y - im.height) == Gd.GetPixel(im, x, y)
    ensures WrappedGetPixel(im, x, y + im.height) == Gd.GetPixel(im, x, y)
  {
    assert Wrap(x - im.width, im.width) == x;
    assert Wrap(x + im.width, im.width) == x;
    assert Wrap(y - im.height, im.height) == y;
    assert Wrap(y + im.height, im.height) == y;
  }

  /** `gdImageGetPixel` as written, as the `int` its callers receive. */
  function ReadAsWritten(im: Gd.Image, x: int, y: int): (c: Gd.Color)
    requires Gd.Valid(im) && Gd.InBounds(im, x, y)
    ensures c == 0
  {
    Gd.GetPixelAsWrittenIsZero(im, x, y);
    FromUnsigned32(Gd.GetPixelAsWritten(im, x, y) as int)
  }

  /** `wrappedGetPixel` as written: the wrapped coordinates are read with
      the `&` reader, so every read is 0, an opaque black pixel. */
  function WrappedGetPixelAsWritten(im: Gd.Image, x: int, y: int): (c: Gd.Color)
    requires Gd.Valid(im) && InWrapRange(im, x, y)
    ensures c == 0
    ensures Gd.Alpha(c) == Gd.ALPHA_OPAQUE
  {
    ReadAsWritten(im, Wrap(x, im.width), Wrap(y, im.height))
  }

  // ------------------------------------------------------------ channels

  /** `getGrey`: the integer mean of red, green and blue. */
  function GetGrey(c: Gd.Color): (v: byte)
  {
    (Gd.Red(c) + Gd.Green(c) + Gd.Blue(c)) / 3
  }

  /** The grey value lies between the smallest and the largest component,
      and three times it falls short of their sum by less than 3. */
  lemma GetGreyIsMean(c: Gd.Color)
    ensures var v := GetGrey(c);
            3 * v <= Gd.Red(c) + Gd.Green(c) + Gd.Blue(c) < 3 * v + 3
    ensures var v := GetGrey(c);
            (v <= Gd.Red(c) || v <= Gd.Green(c) || v <= Gd.Blue(c))
            && (v >= Gd.Red(c) || v >= Gd.Green(c) || v >= Gd.Blue(c))
  {
  }

  /** `getColor`: the grey value or the named component. */
  function GetColor(c: Gd.Color, ch: Channel): byte
  {
    match ch
    case GreyChannel => GetGrey(c)
    case RedChannel => Gd.Red(c)
    case GreenChannel => Gd.Green(c)
    case BlueChannel => Gd.Blue(c)
  }

  /** `getPixel`: the channel value at (x, y), wrapped when `check` is set. */
  function GetPixel(im: Gd.Image, x: int, y: int, ch: Channel, check: bool): byte
    requires Gd.Valid(im)
    requires if check then InWrapRange(im, x, y) else Gd.InBounds(im, x, y)
  {
    var c := if check then WrappedGetPixel(im, x, y) else Gd.GetPixel(im, x, y);
    GetColor(c, ch)
  }

  /** The colour `setPixel` writes: grey sets all three components, a colour
      channel replaces its own component and keeps the other two of the
      pixel's current colour. */
  function ChannelColor(cur: Gd.Color, value: byte, ch: Channel, alpha: int): Gd.Color
    requires 0 <= alpha <= Gd.ALPHA_TRANSPARENT
  {
    match ch
    case GreyChannel => Gd.TrueColorAlpha(value, value, value, alpha)
    case RedChannel => Gd.TrueColorAlpha(value, Gd.Green(cur), Gd.Blue(cur), alpha)
    case GreenChannel => Gd.TrueColorAlpha(Gd.Red(cur), value, Gd.Blue(cur), alpha)
    case BlueChannel => Gd.TrueColorAlpha(Gd.Red(cur), Gd.Green(cur), value, alpha)
  }

  /** `setPixel`, with the pixel's current colour read by the `|` reader. */
  function SetPixel(im: Gd.Image, x: int, y: int, value: byte, ch: Channel, alpha: int): (r: Gd.Image)
    requires Gd.Valid(im) && Gd.InBounds(im, x, y) && 0 <= alpha <= Gd.ALPHA_TRANSPARENT
    ensures Gd.Valid(r) && r.width == im.width && r.height == im.height
  {
    Gd.SetPixel(im, x, y, ChannelColor(Gd.GetPixel(im, x, y), value, ch, alpha))
  }

  /** After `setPixel` the pixel has the given alpha, reading the written
      channel gives the value back, a colour channel leaves the other two
      components as they were, and every other pixel is unchanged. */
  lemma SetPixelEffect(im: Gd.Image, x: int, y: int, value: byte, ch: Channel, alpha: int)
    requires Gd.Valid(im) && Gd.InBounds(im, x, y) && 0 <= alpha <= Gd.ALPHA_TRANSPARENT
    ensures var n := Gd.GetPixel(SetPixel(im, x, y, value, ch, alpha), x, y);
            Gd.Alpha(n) == alpha && GetColor(n, ch) == value
    ensures var n := Gd.GetPixel(SetPixel(im, x, y, value, ch, alpha), x, y);
            var o := Gd.GetPixel(im, x, y);
            match ch
            case GreyChannel => Gd.Red(n) == value && Gd.Green(n) == value && Gd.Blue(n) == value
            case RedChannel => Gd.Green(n) == Gd.Green(o) && Gd.Blue(n) == Gd.Blue(o)
            case GreenChannel => Gd.Red(n) == Gd.Red(o) && Gd.Blue(n) == Gd.Blue(o)
            case BlueChannel => Gd.Red(n) == Gd.Red(o) && Gd.Green(n) == Gd.Green(o)
    ensures forall x', y' | Gd.InBounds(im, x', y') && (x' != x || y' != y) ::
              Gd.GetPixel(SetPixel(im, x, y, value, ch, alpha), x', y') == Gd.GetPixel(im, x', y')
  {
    var o := Gd.GetPixel(im, x, y);
    var c := ChannelColor(o, value, ch, alpha);
    ChannelColorLanes(o, value, ch, alpha);
    Gd.GetSetSamePixel(im, x, y, c);
    assert Gd.GetPixel(SetPixel(im, x, y, value, ch, alpha), x, y) == c;
    forall x', y' | Gd.InBounds(im, x', y') && (x' != x || y' != y)
      ensures Gd.GetPixel(SetPixel(im, x, y, value, ch, alpha), x', y') == Gd.GetPixel(im, x', y')
    {
      Gd.GetSetOtherPixel(im, x, y, c, x', y');
    }
  }

  /** `setPixel` as written: the grey channel writes without reading; a
      colour channel reads the current colour with the `&` reader. */
  function SetPixelAsWritten(im: Gd.Image, x: int, y: int, value: byte, ch: Channel, alpha: int): (r: Gd.Image)
    requires Gd.Valid(im) && Gd.InBounds(im, x, y) && 0 <= alpha <= Gd.ALPHA_TRANSPARENT
    ensures Gd.Valid(r) && r.width == im.width && r.height == im.height
  {
    if ch == GreyChannel then Gd.SetPixel(im, x, y, Gd.TrueColorAlpha(value, value, value, alpha))
    else Gd.SetPixel(im, x, y, ChannelColor(ReadAsWritten(im, x, y), value, ch, alpha))
  }

  /** As written, `setPixel` still gives the pixel the alpha and the value in
      the written channel, but a colour channel sets the other two
      components to 0 instead of keeping them: writing red 7 into opaque
      white leaves (7, 0, 0). The grey channel writes as intended, and every
      other pixel is unchanged. The pixel's bytes are read back with the
      `|` reader. */
  lemma SetPixelAsWrittenEffect(im: Gd.Image, x: int, y: int, value: byte, ch: Channel, alpha: int)
    requires Gd.Valid(im) && Gd.InBounds(im, x, y) && 0 <= alpha <= Gd.ALPHA_TRANSPARENT
    ensures var n := Gd.GetPixel(SetPixelAsWritten(im, x, y, value, ch, alpha), x, y);
            Gd.Alpha(n) == alpha && GetColor(n, ch) == value
    ensures var n := Gd.GetPixel(SetPixelAsWritten(im, x, y, value, ch, alpha), x, y);
            match ch
            case GreyChannel => Gd.Red(n) == value && Gd.Green(n) == value && Gd.Blue(n) == value
            case RedChannel => Gd.Green(n) == 0 && Gd.Blue(n) == 0
            case GreenChannel => Gd.Red(n) == 0 && Gd.Blue(n) == 0
            case BlueChannel => Gd.Red(n) == 0 && Gd.Green(n) == 0
    ensures ch == GreyChannel ==> SetPixelAsWritten(im, x, y, value, ch, alpha) == SetPixel(im, x, y, value, ch, alpha)
    ensures forall x', y' | Gd.InBounds(im, x', y') && (x' != x || y' != y) ::
              Gd.GetPixel(SetPixelAsWritten(im, x, y, value, ch, alpha), x', y') == Gd.GetPixel(im, x', y')
  {
    var c := ChannelColor(0, value, ch, alpha);
    ChannelColorLanes(0, value, ch, alpha);
    Gd.GetSetSamePixel(im, x, y, c);
    assert Gd.GetPixel(SetPixelAsWritten(im, x, y, value, ch, alpha), x, y) == c;
    forall x', y' | Gd.InBounds(im, x', y') && (x' != x || y' != y)
      ensures Gd.GetPixel(SetPixelAsWritten(im, x, y, value, ch, alpha), x', y') == Gd.GetPixel(im, x', y')
    {
      Gd.GetSetOtherPixel(im, x, y, c, x', y');
    }
  }

  /** The colour `setPixel` writes is non-negative and carries the alpha,
      the value in the written channel, and the kept components. */
  lemma ChannelColorLanes(cur: Gd.Color, value: byte, ch: Channel, alpha: int)
    requires 0 <= alpha <= Gd.ALPHA_TRANSPARENT
    ensures var c := ChannelColor(cur, value, ch, alpha);
            c >= 0 && Gd.Alpha(c) == alpha && GetColor(c, ch) == value
    ensures var c := ChannelColor(cur, value, ch, alpha);
            match ch
            case GreyChannel => Gd.Red(c) == value && Gd.Green(c) == value && Gd.Blue(c) == value
            case RedChannel => Gd.Green(c) == Gd.Green(cur) && Gd.Blue(c) == Gd.Blue(cur)
            case GreenChannel => Gd.Red(c) == Gd.Red(cur) && Gd.Blue(c) == Gd.Blue(cur)
            case BlueChannel => Gd.Red(c) == Gd.Red(cur) && Gd.Green(c) == Gd.Green(cur)
  {
    var c := ChannelColor(cur, value, ch, alpha);
    match ch
    case GreyChannel =>
      Gd.LanesRoundTrip(value, value, value, alpha, c);
      GreyOfEqualLanes(c, value);
    case RedChannel => Gd.LanesRoundTrip(value, Gd.Green(cur), Gd.Blue(cur), alpha, c);
    case GreenChannel => Gd.LanesRoundTrip(Gd.Red(cur), value, Gd.Blue(cur), alpha, c);
    case BlueChannel => Gd.LanesRoundTrip(Gd.Red(cur), Gd.Green(cur), value, alpha, c);
  }

  /** `boundColor`: clamp into [0, 255]. */
  function BoundColor(c: int): (r: byte)
    ensures 0 <= c <= Gd.RED_MAX ==> r == c
    ensures c > Gd.RED_MAX ==> r == Gd.RED_MAX
    ensures c < 0 ==> r == 0
  {
    if c > Gd.RED_MAX then Gd.RED_MAX else if c < 0 then 0 else c
  }

  /** `channelToString`. */
  function ChannelToString(ch: Channel): string
  {
    match ch
    case GreyChannel => "grey"
    case RedChannel => "red"
    case BlueChannel => "blue"
    case GreenChannel => "green"
  }

  /** Every channel has its own name. */
  lemma ChannelNamesDistinct(a: Channel, b: Channel)
    ensures ChannelToString(a) == ChannelToString(b) <==> a == b
    ensures ChannelToString(GreyChannel) == "grey"
  {
    if a != b {
      var s, t := ChannelToString(a), ChannelToString(b);
      assert |s| != |t| || s[0] != t[0];
    }
  }

  // ------------------------------------------------------------ edge detection

  /** `_laplace`'s kernel, row by row. */
  const LAPLACE_KERNEL: seq<int> := [1, 1, 1, 1, -8, 1, 1, 1, 1]

  /** The sum of the eight samples around the centre of a 3×3 window. */
  function RingSum(pix: seq<byte>): int
    requires |pix| == 9
  {
    var p: seq<int> := pix;
    p[0] + p[1] + p[2] + p[3] + p[5] + p[6] + p[7] + p[8]
  }

  /** `_laplace`: the kernel applied sample by sample. It is the sum of the
      eight neighbours less eight times the centre, so it lies within
      ±8·255. */
  method Laplace(pix: seq<byte>) returns (grad: int)
    requires |pix| == 9
    ensures grad == RingSum(pix) - 8 * (pix[4] as int)
    ensures -8 * Gd.RED_MAX <= grad <= 8 * Gd.RED_MAX
  {
    grad := 0;
    var i := 0;
    while i < 9
      invariant 0 <= i <= 9
      invariant grad == PartialRing(pix, i)
    {
      grad := grad + LAPLACE_KERNEL[i] * (pix[i] as int);
      i := i + 1;
    }
    PartialRingComplete(pix);
  }

  /** The kernel's sum over the first i samples. */
  function PartialRing(pix: seq<byte>, i: nat): int
    requires |pix| == 9 && i <= 9
  {
    if i == 0 then 0 else PartialRing(pix, i - 1) + LAPLACE_KERNEL[i - 1] * (pix[i - 1] as int)
  }

  /** The kernel over all nine samples is the ring sum less eight centres. */
  lemma PartialRingComplete(pix: seq<byte>)
    requires |pix| == 9
    ensures PartialRing(pix, 9) == RingSum(pix) - 8 * (pix[4] as int)
  {
    var p: seq<int> := pix;
    assert PartialRing(pix, 1) == p[0];
    assert PartialRing(pix, 2) == p[0] + p[1];
    assert PartialRing(pix, 3) == p[0] + p[1] + p[2];
    assert PartialRing(pix, 4) == p[0] + p[1] + p[2] + p[3];
    assert PartialRing(pix, 5) == p[0] + p[1] + p[2] + p[3] - 8 * p[4];
    assert PartialRing(pix, 6) == p[0] + p[1] + p[2] + p[3] - 8 * p[4] + p[5];
    assert PartialRing(pix, 7) == p[0] + p[1] + p[2] + p[3] - 8 * p[4] + p[5] + p[6];
    assert PartialRing(pix, 8) == p[0] + p[1] + p[2] + p[3] - 8 * p[4] + p[5] + p[6] + p[7];
  }

  /** The 3×3 window around (x, y), row by row, read with wrapping. */
  function Window(im: Gd.Image, x: int, y: int, ch: Channel): (pix: seq<byte>)
    requires Gd.Valid(im) && Gd.InBounds(im, x, y)
    ensures |pix| == 9
  {
    [Sample(im, x - 1, y - 1, ch), Sample(im, x, y - 1, ch), Sample(im, x + 1, y - 1, ch),
     Sample(im, x - 1, y, ch), Sample(im, x, y, ch), Sample(im, x + 1, y, ch),
     Sample(im, x - 1, y + 1, ch), Sample(im, x, y + 1, ch), Sample(im, x + 1, y + 1, ch)]
  }

  /** `getPixel` with wrapping, as `edgeDetect` calls it. */
  function Sample(im: Gd.Image, x: int, y: int, ch: Channel): byte
    requires Gd.Valid(im) && InWrapRange(im, x, y)
  {
    GetColor(WrappedGetPixel(im, x, y), ch)
  }

  /** The window's centre is the pixel itself, unwrapped. */
  lemma WindowCentre(im: Gd.Image, x: int, y: int, ch: Channel)
    requires Gd.Valid(im) && Gd.InBounds(im, x, y)
    ensures Window(im, x, y, ch)[4] == GetPixel(im, x, y, ch, false)
  {
    assert Wrap(x, im.width) == x && Wrap(y, im.height) == y;
  }

  /** The grey value `edgeDetect` writes at (x, y) with the Laplace operator. */
  function EdgeValue(im: Gd.Image, x: int, y: int, ch: Channel): byte
    requires Gd.Valid(im) && Gd.InBounds(im, x, y)
  {
    var pix := Window(im, x, y, ch);
    BoundColor(RingSum(pix) - 8 * (pix[4] as int))
  }

  /** An opaque grey pixel. */
  function Grey(v: byte): Gd.Color
  {
    Gd.TrueColorAlpha(v, v, v, Gd.ALPHA_OPAQUE)
  }

  /** So the edge image is opaque and every channel of it reads the clamped
      Laplace value, which lies in [0, 255]. */
  lemma EdgeDetectReadsEdgeValue(v: byte, ch: Channel)
    ensures Gd.Alpha(Grey(v)) == Gd.ALPHA_OPAQUE && GetColor(Grey(v), ch) == v
  {
    Gd.LanesRoundTrip(v, v, v, Gd.ALPHA_OPAQUE, 0);
    GreyOfEqualLanes(Grey(v), v);
  }

  lemma GreyOfEqualLanes(c: Gd.Color, v: byte)
    requires Gd.Red(c) == v && Gd.Green(c) == v && Gd.Blue(c) == v
    ensures GetGrey(c) == v
  {
    var t: int := v;
    assert (t + t + t) / 3 == t;
  }

  // ------------------------------------------------------------ painting

  /** One `gdImageSetPixel` call of a loop: where, and which colour. */
  datatype Write = Write(x: int, y: int, c: Gd.Color)

  predicate WritesInBounds(im: Gd.Image, ws: seq<Write>)
  {
    forall k | 0 <= k < |ws| :: Gd.InBounds(im, ws[k].x, ws[k].y)
  }

  /** The image after a sequence of writes, in order. */
  function Paint(im: Gd.Image, ws: seq<Write>): (r: Gd.Image)
    requires Gd.Valid(im) && WritesInBounds(im, ws)
    ensures Gd.Valid(r) && r.width == im.width && r.height == im.height
    decreases |ws|
  {
    if |ws| == 0 then im
    else
      var last := ws[|ws| - 1];
      Gd.SetPixel(Paint(im, ws[..|ws| - 1]), last.x, last.y, last.c)
  }

  /** One more write is one more `gdImageSetPixel`. */
  lemma PaintExtend(im: Gd.Image, ws: seq<Write>, w: Write)
    requires Gd.Valid(im) && WritesInBounds(im, ws) && Gd.InBounds(im, w.x, w.y)
    ensures WritesInBounds(im, ws + [w])
    ensures Paint(im, ws + [w]) == Gd.SetPixel(Paint(im, ws), w.x, w.y, w.c)
  {
    assert (ws + [w])[..|ws|] == ws;
  }

  /** `setPixel` on the grey channel writes the opaque grey colour. */
  lemma SetGreyPixel(im: Gd.Image, x: int, y: int, v: byte)
    requires Gd.Valid(im) && Gd.InBounds(im, x, y)
    ensures SetPixel(im, x, y, v, GreyChannel, Gd.ALPHA_OPAQUE) == Gd.SetPixel(im, x, y, Grey(v))
  {
  }

  /** A pixel no write touches reads as before. */
  lemma {:induction false} PaintUntouched(im: Gd.Image, ws: seq<Write>, x: int, y: int)
    requires Gd.Valid(im) && WritesInBounds(im, ws) && Gd.InBounds(im, x, y)
    requires forall k | 0 <= k < |ws| :: ws[k].x != x || ws[k].y != y
    ensures Gd.GetPixel(Paint(im, ws), x, y) == Gd.GetPixel(im, x, y)
    decreases |ws|
  {
    if |ws| > 0 {
      var init := ws[..|ws| - 1];
      var last := ws[|ws| - 1];
      PaintUntouched(im, init, x, y);
      Gd.GetSetOtherPixel(Paint(im, init), last.x, last.y, last.c, x, y);
    }
  }

  /** A pixel exactly one write touches reads the non-negative colour that
      write put there. */
  lemma {:induction false} PaintTouchedOnce(im: Gd.Image, ws: seq<Write>, i: int, x: int, y: int)
    requires Gd.Valid(im) && WritesInBounds(im, ws)
    requires 0 <= i < |ws| && ws[i].x == x && ws[i].y == y && ws[i].c >= 0
    requires forall k | 0 <= k < |ws| && k != i :: ws[k].x != x || ws[k].y != y
    ensures Gd.GetPixel(Paint(im, ws), x, y) == ws[i].c
    decreases |ws|
  {
    var init := ws[..|ws| - 1];
    var last := ws[|ws| - 1];
    if i == |ws| - 1 {
      Gd.GetSetSamePixel(Paint(im, init), x, y, last.c);
    } else {
      PaintTouchedOnce(im, init, i, x, y);
      Gd.GetSetOtherPixel(Paint(im, init), last.x, last.y, last.c, x, y);
    }
  }

  /** The writes of the column-major loops of `edgeDetect` and `clearAlpha`
      (x outer, y inner) after visiting every pixel before (x, y): write k
      is at the pixel whose visit number x·h + y is k. */
  predicate VisitOrder(im: Gd.Image, ws: seq<Write>)
  {
    forall k | 0 <= k < |ws| :: Gd.InBounds(im, ws[k].x, ws[k].y) && ws[k].x * im.height + ws[k].y == k
  }

  /** After all w·h visits, each pixel is written by exactly one write: the
      one with its visit number. */
  lemma VisitedOnce(im: Gd.Image, ws: seq<Write>, x: int, y: int)
    requires VisitOrder(im, ws) && |ws| == im.width * im.height && Gd.InBounds(im, x, y)
    ensures var i := x * im.height + y;
            0 <= i < |ws| && ws[i].x == x && ws[i].y == y
            && forall k | 0 <= k < |ws| && k != i :: ws[k].x != x || ws[k].y != y
  {
    var i := x * im.height + y;
    VisitOf(im.width, im.height, x, y);
    DivModUnique(i, im.height, ws[i].x, ws[i].y);
    DivModUnique(i, im.height, x, y);
  }

  /** Before visit x·h + y, no write has touched (x, y). */
  lemma NotYetVisited(im: Gd.Image, ws: seq<Write>, x: int, y: int)
    requires VisitOrder(im, ws) && Gd.InBounds(im, x, y) && |ws| == x * im.height + y
    ensures forall k | 0 <= k < |ws| :: ws[k].x != x || ws[k].y != y
  {
  }

  /** Euclidean division has one quotient and one remainder. */
  lemma DivModUnique(n: int, h: int, q: int, r: int)
    requires h > 0 && 0 <= r < h && n == q * h + r
    ensures n / h == q && n % h == r
  {
    var d := q - n / h;
    assert d * h == n % h - r;
    if d >= 1 {
      MulMonotone(1, d, h);
    } else if d <= -1 {
      MulMonotone(1, -d, h);
    }
  }

  /** Pixel (x, y) is visit x·h + y of w·h. */
  lemma VisitOf(w: int, h: int, x: int, y: int)
    requires 0 <= x < w && 0 <= y < h
    ensures 0 <= x * h + y < w * h
  {
    MulMonotone(x, w - 1, h);
  }

  lemma MulMonotone(a: int, b: int, h: int)
    requires 0 <= a <= b && h >= 0
    ensures a * h <= b * h
  {
    assert (b - a) * h >= 0;
  }

  // ------------------------------------------------------------ edge detection

  /** `edgeDetect` with `_laplace` and the `|` reader: a new image of the same size whose every
      pixel is the opaque grey of the clamped Laplace value of the source
      channel around it. The new image's initial contents are all
      overwritten. */
  method EdgeDetectLaplace(im: Gd.Image, ch: Channel) returns (r: Gd.Image)
    requires Gd.Valid(im)
    ensures Gd.Valid(r) && r.width == im.width && r.height == im.height
    ensures forall x, y | Gd.InBounds(im, x, y) :: Gd.GetPixel(r, x, y) == Grey(EdgeValue(im, x, y, ch))
  {
    var start := Gd.CreateTrueColor(im.width, im.height);
    r := start;
    var w := im.width;
    var h := im.height;
    ghost var ws: seq<Write> := [];
    var x := 0;
    while x < w
      invariant 0 <= x <= w && |ws| == x * h
      invariant EdgeWrites(im, ch, start, ws) && r == Paint(start, ws)
    {
      var y := 0;
      while y < h
        invariant 0 <= y <= h && |ws| == x * h + y
        invariant EdgeWrites(im, ch, start, ws) && r == Paint(start, ws)
      {
        var pix := Window(im, x, y, ch);
        var c := Laplace(pix);
        EdgeWritesStep(im, ch, start, ws, x, y, BoundColor(c));
        PaintExtend(start, ws, Write(x, y, Grey(BoundColor(c))));
        SetGreyPixel(r, x, y, BoundColor(c));
        r := SetPixel(r, x, y, BoundColor(c), GreyChannel, Gd.ALPHA_OPAQUE);
        ws := ws + [Write(x, y, Grey(BoundColor(c)))];
        y := y + 1;
      }
      assert x * h + h == (x + 1) * h;
      x := x + 1;
    }
    EdgeWritesDone(im, ch, start, ws);
  }

  /** What `edgeDetect`'s loops have written so far: in visit order, each
      write the opaque grey edge value of its pixel. */
  predicate EdgeWrites(im: Gd.Image, ch: Channel, start: Gd.Image, ws: seq<Write>)
  {
    Gd.Valid(im) && Gd.Valid(start) && start.width == im.width && start.height == im.height
    && VisitOrder(im, ws) && WritesInBounds(start, ws)
    && forall k | 0 <= k < |ws| :: ws[k].c == Grey(EdgeValue(im, ws[k].x, ws[k].y, ch))
  }

  /** One visit extends the writes by the grey edge value of the next pixel. */
  lemma EdgeWritesStep(im: Gd.Image, ch: Channel, start: Gd.Image, ws: seq<Write>, x: int, y: int, v: byte)
    requires EdgeWrites(im, ch, start, ws) && Gd.InBounds(im, x, y) && |ws| == x * im.height + y
    requires v == BoundColor(RingSum(Window(im, x, y, ch)) - 8 * (Window(im, x, y, ch)[4] as int))
    ensures EdgeWrites(im, ch, start, ws + [Write(x, y, Grey(v))])
  {
    var w := Write(x, y, Grey(v));
    assert w.c == Grey(EdgeValue(im, x, y, ch));
    VisitOrderExtend(im, ws, w);
    PaintExtend(start, ws, w);
    var ws' := ws + [w];
    assert forall k | 0 <= k < |ws'| :: ws'[k].c == Grey(EdgeValue(im, ws'[k].x, ws'[k].y, ch)) by {
      forall k | 0 <= k < |ws'|
        ensures ws'[k].c == Grey(EdgeValue(im, ws'[k].x, ws'[k].y, ch))
      {
        if k < |ws| {
          assert ws'[k] == ws[k];
        }
      }
    }
  }

  /** The write for pixel (x, y) at position x·h + y keeps the visit order. */
  lemma VisitOrderExtend(im: Gd.Image, ws: seq<Write>, w: Write)
    requires VisitOrder(im, ws) && Gd.InBounds(im, w.x, w.y) && |ws| == w.x * im.height + w.y
    ensures VisitOrder(im, ws + [w])
  {
    var ws' := ws + [w];
    forall k | 0 <= k < |ws'|
      ensures Gd.InBounds(im, ws'[k].x, ws'[k].y) && ws'[k].x * im.height + ws'[k].y == k
    {
      if k < |ws| {
        assert ws'[k] == ws[k];
      }
    }
  }

  /** After all w·h visits, every pixel reads its grey edge value. */
  lemma EdgeWritesDone(im: Gd.Image, ch: Channel, start: Gd.Image, ws: seq<Write>)
    requires EdgeWrites(im, ch, start, ws) && |ws| == im.width * im.height
    ensures forall x, y | Gd.InBounds(im, x, y) :: Gd.GetPixel(Paint(start, ws), x, y) == Grey(EdgeValue(im, x, y, ch))
  {
    PaintedEverywhere(im, start, ws);
  }

  /** Once every pixel has been visited, the image reads at each pixel the
      colour written there. */
  lemma PaintedEverywhere(im: Gd.Image, start: Gd.Image, ws: seq<Write>)
    requires Gd.Valid(im) && Gd.Valid(start) && start.width == im.width && start.height == im.height
    requires VisitOrder(im, ws) && WritesInBounds(start, ws) && |ws| == im.width * im.height
    requires forall k | 0 <= k < |ws| :: ws[k].c >= 0
    ensures forall k | 0 <= k < |ws| :: Gd.GetPixel(Paint(start, ws), ws[k].x, ws[k].y) == ws[k].c
    ensures forall x, y | Gd.InBounds(im, x, y) ::
              var k := x * im.height + y;
              0 <= k < |ws| && ws[k].x == x && ws[k].y == y
  {
    forall x, y | Gd.InBounds(im, x, y)
      ensures var k := x * im.height + y;
              0 <= k < |ws| && ws[k].x == x && ws[k].y == y
    {
      VisitedOnce(im, ws, x, y);
    }
    forall k | 0 <= k < |ws|
      ensures Gd.GetPixel(Paint(start, ws), ws[k].x, ws[k].y) == ws[k].c
    {
      VisitedOnce(im, ws, ws[k].x, ws[k].y);
      PaintTouchedOnce(start, ws, k, ws[k].x, ws[k].y);
    }
  }

  /** The 3×3 window `edgeDetect` reads as written: nine zeros. */
  function WindowAsWritten(im: Gd.Image, x: int, y: int, ch: Channel): (pix: seq<byte>)
    requires Gd.Valid(im) && Gd.InBounds(im, x, y)
    ensures |pix| == 9 && forall i | 0 <= i < 9 :: pix[i] == 0
  {
    [SampleAsWritten(im, x - 1, y - 1, ch), SampleAsWritten(im, x, y - 1, ch), SampleAsWritten(im, x + 1, y - 1, ch),
     SampleAsWritten(im, x - 1, y, ch), SampleAsWritten(im, x, y, ch), SampleAsWritten(im, x + 1, y, ch),
     SampleAsWritten(im, x - 1, y + 1, ch), SampleAsWritten(im, x, y + 1, ch), SampleAsWritten(im, x + 1, y + 1, ch)]
  }

  /** `getPixel` with wrapping as written: the channel of an all-zero colour. */
  function SampleAsWritten(im: Gd.Image, x: int, y: int, ch: Channel): (v: byte)
    requires Gd.Valid(im) && InWrapRange(im, x, y)
    ensures v == 0
  {
    GetColor(WrappedGetPixelAsWritten(im, x, y), ch)
  }

  /** `edgeDetect` with `_laplace` as written: every sample is 0, so so is
      every Laplace value, and the new image is opaque black throughout,
      whatever the source image holds. */
  method EdgeDetectLaplaceAsWritten(im: Gd.Image, ch: Channel) returns (r: Gd.Image)
    requires Gd.Valid(im)
    ensures Gd.Valid(r) && r.width == im.width && r.height == im.height
    ensures forall x, y | Gd.InBounds(im, x, y) :: Gd.GetPixel(r, x, y) == Grey(0) == 0
  {
    var start := Gd.CreateTrueColor(im.width, im.height);
    r := start;
    var w := im.width;
    var h := im.height;
    ghost var ws: seq<Write> := [];
    var x := 0;
    while x < w
      invariant 0 <= x <= w && |ws| == x * h
      invariant UniformWrites(im, ws, 0) && WritesInBounds(start, ws) && r == Paint(start, ws)
    {
      var y := 0;
      while y < h
        invariant 0 <= y <= h && |ws| == x * h + y
        invariant UniformWrites(im, ws, 0) && WritesInBounds(start, ws) && r == Paint(start, ws)
      {
        r := EdgePixelAsWritten(im, r, x, y, ch);
        UniformWritesExtend(im, ws, Write(x, y, 0), 0);
        PaintExtend(start, ws, Write(x, y, 0));
        ws := ws + [Write(x, y, 0)];
        y := y + 1;
      }
      assert x * h + h == (x + 1) * h;
      x := x + 1;
    }
    UniformPainted(im, start, ws, 0);
  }

  /** One pixel of `edgeDetect` as written: the window reads as zeros, so
      `_laplace` gives 0, and `setPixel` on the grey channel, which reads
      nothing, writes opaque black at (x, y) of the result image. */
  method EdgePixelAsWritten(im: Gd.Image, r: Gd.Image, x: int, y: int, ch: Channel) returns (r': Gd.Image)
    requires Gd.Valid(im) && Gd.InBounds(im, x, y)
    requires Gd.Valid(r) && r.width == im.width && r.height == im.height
    ensures r' == Gd.SetPixel(r, x, y, 0)
  {
    var v := EdgeValueAsWritten(im, x, y, ch);
    r' := SetPixelAsWritten(r, x, y, v, GreyChannel, Gd.ALPHA_OPAQUE);
    BlackGreyWrite(r, x, y, v);
  }

  /** The clamped Laplace value `edgeDetect` computes as written: 0. */
  method EdgeValueAsWritten(im: Gd.Image, x: int, y: int, ch: Channel) returns (v: byte)
    requires Gd.Valid(im) && Gd.InBounds(im, x, y)
    ensures v == 0
  {
    var pix := WindowAsWritten(im, x, y, ch);
    var c := Laplace(pix);
    v := BoundColor(c);
  }

  /** `setPixel` of grey 0, as written, writes the colour 0, opaque black. */
  lemma BlackGreyWrite(im: Gd.Image, x: int, y: int, v: byte)
    requires Gd.Valid(im) && Gd.InBounds(im, x, y) && v == 0
    ensures SetPixelAsWritten(im, x, y, v, GreyChannel, Gd.ALPHA_OPAQUE) == Gd.SetPixel(im, x, y, 0)
  {
    assert Gd.TrueColorAlpha(v, v, v, Gd.ALPHA_OPAQUE) == 0;
  }

  /** Writes in column-major visit order that all put the same colour. */
  predicate UniformWrites(im: Gd.Image, ws: seq<Write>, c: Gd.Color)
  {
    VisitOrder(im, ws) && forall k | 0 <= k < |ws| :: ws[k].c == c
  }

  lemma UniformWritesExtend(im: Gd.Image, ws: seq<Write>, w: Write, c: Gd.Color)
    requires UniformWrites(im, ws, c) && w.c == c
    requires Gd.InBounds(im, w.x, w.y) && |ws| == w.x * im.height + w.y
    ensures UniformWrites(im, ws + [w], c)
  {
    VisitOrderExtend(im, ws, w);
    var ws' := ws + [w];
    forall k | 0 <= k < |ws'|
      ensures ws'[k].c == c
    {
      if k < |ws| {
        assert ws'[k] == ws[k];
      }
    }
  }

  /** Once every pixel is visited by writes of one non-negative colour,
      every pixel reads that colour. */
  lemma UniformPainted(im: Gd.Image, start: Gd.Image, ws: seq<Write>, c: Gd.Color)
    requires Gd.Valid(im) && Gd.Valid(start) && start.width == im.width && start.height == im.height
    requires UniformWrites(im, ws, c) && WritesInBounds(start, ws) && |ws| == im.width * im.height && c >= 0
    ensures forall x, y | Gd.InBounds(im, x, y) :: Gd.GetPixel(Paint(start, ws), x, y) == c
  {
    forall x, y | Gd.InBounds(im, x, y)
      ensures Gd.GetPixel(Paint(start, ws), x, y) == c
    {
      VisitedOnce(im, ws, x, y);
      PaintTouchedOnce(start, ws, x * im.height + y, x, y);
    }
  }

  // ------------------------------------------------------------ alpha

  /** The colour `clearAlpha` writes for a pixel: its red, green and blue,
      with opaque alpha. */
  function Opaque(c: Gd.Color): Gd.Color
  {
    Gd.TrueColorAlpha(Gd.Red(c), Gd.Green(c), Gd.Blue(c), Gd.ALPHA_OPAQUE)
  }

  /** `clearAlpha` with the `|` reader: every pixel becomes opaque and keeps
      its red, green and blue. */
  method ClearAlpha(im: Gd.Image) returns (r: Gd.Image)
    requires Gd.Valid(im)
    ensures Gd.Valid(r) && r.width == im.width && r.height == im.height
    ensures forall x, y | Gd.InBounds(im, x, y) ::
              var c := Gd.GetPixel(r, x, y);
              var o := Gd.GetPixel(im, x, y);
              Gd.Alpha(c) == Gd.ALPHA_OPAQUE
              && Gd.Red(c) == Gd.Red(o) && Gd.Green(c) == Gd.Green(o) && Gd.Blue(c) == Gd.Blue(o)
  {
    r := im;
    var w := im.width;
    var h := im.height;
    ghost var ws: seq<Write> := [];
    var x := 0;
    while x < w
      invariant 0 <= x <= w && |ws| == x * h
      invariant VisitOrder(im, ws) && WritesInBounds(im, ws) && r == Paint(im, ws)
      invariant forall k | 0 <= k < |ws| :: ws[k].c == Opaque(Gd.GetPixel(im, ws[k].x, ws[k].y))
    {
      var y := 0;
      while y < h
        invariant 0 <= y <= h && |ws| == x * h + y
        invariant VisitOrder(im, ws) && WritesInBounds(im, ws) && r == Paint(im, ws)
        invariant forall k | 0 <= k < |ws| :: ws[k].c == Opaque(Gd.GetPixel(im, ws[k].x, ws[k].y))
      {
        NotYetVisited(im, ws, x, y);
        PaintUntouched(im, ws, x, y);
        var cur := Gd.GetPixel(r, x, y);
        r := Gd.SetPixel(r, x, y, Gd.TrueColorAlpha(Gd.Red(cur), Gd.Green(cur), Gd.Blue(cur), Gd.ALPHA_OPAQUE));
        PaintExtend(im, ws, Write(x, y, Opaque(cur)));
        ws := ws + [Write(x, y, Opaque(cur))];
        y := y + 1;
      }
      assert x * h + h == (x + 1) * h;
      x := x + 1;
    }
    forall x', y' | Gd.InBounds(im, x', y')
      ensures var c := Gd.GetPixel(r, x', y');
              var o := Gd.GetPixel(im, x', y');
              Gd.Alpha(c) == Gd.ALPHA_OPAQUE
              && Gd.Red(c) == Gd.Red(o) && Gd.Green(c) == Gd.Green(o) && Gd.Blue(c) == Gd.Blue(o)
    {
      var o := Gd.GetPixel(im, x', y');
      VisitedOnce(im, ws, x', y');
      PaintTouchedOnce(im, ws, x' * h + y', x', y');
      Gd.LanesRoundTrip(Gd.Red(o), Gd.Green(o), Gd.Blue(o), Gd.ALPHA_OPAQUE, 0);
    }
  }

  /** `clearAlpha` as written: the old colour reads as 0, so every pixel
      becomes opaque black; an opaque white pixel does not stay white. */
  method ClearAlphaAsWritten(im: Gd.Image) returns (r: Gd.Image)
    requires Gd.Valid(im)
    ensures Gd.Valid(r) && r.width == im.width && r.height == im.height
    ensures forall x, y | Gd.InBounds(im, x, y) :: Gd.GetPixel(r, x, y) == Opaque(0) == 0
  {
    r := im;
    var w := im.width;
    var h := im.height;
    ghost var ws: seq<Write> := [];
    var x := 0;
    while x < w
      invariant 0 <= x <= w && |ws| == x * h
      invariant UniformWrites(im, ws, 0) && WritesInBounds(im, ws) && r == Paint(im, ws)
    {
      var y := 0;
      while y < h
        invariant 0 <= y <= h && |ws| == x * h + y
        invariant UniformWrites(im, ws, 0) && WritesInBounds(im, ws) && r == Paint(im, ws)
      {
        var oldC := ReadAsWritten(r, x, y);
        r := Gd.SetPixel(r, x, y, Gd.TrueColorAlpha(Gd.Red(oldC), Gd.Green(oldC), Gd.Blue(oldC), Gd.ALPHA_OPAQUE));
        UniformWritesExtend(im, ws, Write(x, y, 0), 0);
        PaintExtend(im, ws, Write(x, y, 0));
        ws := ws + [Write(x, y, 0)];
        y := y + 1;
      }
      assert x * h + h == (x + 1) * h;
      x := x + 1;
    }
    UniformPainted(im, im, ws, 0);
  }

  // ------------------------------------------------------------ interpolation

  /** The eight wrapped neighbours of (x, y), row by row, centre left out. */
  function Ring(im: Gd.Image, x: int, y: int): (pix: seq<Gd.Color>)
    requires Gd.Valid(im) && Gd.InBounds(im, x, y)
    ensures |pix| == 8
  {
    [WrappedGetPixel(im, x - 1, y - 1), WrappedGetPixel(im, x, y - 1), WrappedGetPixel(im, x + 1, y - 1),
     WrappedGetPixel(im, x - 1, y), WrappedGetPixel(im, x + 1, y),
     WrappedGetPixel(im, x - 1, y + 1), WrappedGetPixel(im, x, y + 1), WrappedGetPixel(im, x + 1, y + 1)]
  }

  /** The eight neighbours `interpolatePixel` reads as written: all 0. */
  function RingAsWritten(im: Gd.Image, x: int, y: int): (pix: seq<Gd.Color>)
    requires Gd.Valid(im) && Gd.InBounds(im, x, y)
    ensures |pix| == 8 && forall i | 0 <= i < 8 :: pix[i] == 0
  {
    [WrappedGetPixelAsWritten(im, x - 1, y - 1), WrappedGetPixelAsWritten(im, x, y - 1),
     WrappedGetPixelAsWritten(im, x + 1, y - 1), WrappedGetPixelAsWritten(im, x - 1, y),
     WrappedGetPixelAsWritten(im, x + 1, y), WrappedGetPixelAsWritten(im, x - 1, y + 1),
     WrappedGetPixelAsWritten(im, x, y + 1), WrappedGetPixelAsWritten(im, x + 1, y + 1)]
  }

  /** The colours, in order, whose alpha is not opaque. */
  function Colored(pix: seq<Gd.Color>): (r: seq<Gd.Color>)
    ensures |r| <= |pix|
  {
    if |pix| == 0 then []
    else
      var last := pix[|pix| - 1];
      Colored(pix[..|pix| - 1]) + (if Gd.Alpha(last) != Gd.ALPHA_OPAQUE then [last] else [])
  }

  /** A colour is kept exactly when it occurs among the input and is not
      opaque, and as many are kept as there are non-opaque positions. */
  lemma {:induction false} ColoredMeansNotOpaque(pix: seq<Gd.Color>, c: Gd.Color)
    ensures c in Colored(pix) <==> c in pix && Gd.Alpha(c) != Gd.ALPHA_OPAQUE
    ensures |Colored(pix)| == |set k | 0 <= k < |pix| && Gd.Alpha(pix[k]) != Gd.ALPHA_OPAQUE|
  {
    if |pix| > 0 {
      var init := pix[..|pix| - 1];
      var last := pix[|pix| - 1];
      ColoredMeansNotOpaque(init, c);
      assert pix == init + [last];
      var S := set k | 0 <= k < |init| && Gd.Alpha(init[k]) != Gd.ALPHA_OPAQUE;
      var T := set k | 0 <= k < |pix| && Gd.Alpha(pix[k]) != Gd.ALPHA_OPAQUE;
      if Gd.Alpha(last) != Gd.ALPHA_OPAQUE {
        assert T == S + {|pix| - 1};
      } else {
        assert T == S;
      }
    }
  }

  /** The channel values of some colours, added up. */
  function ChannelTotal(pix: seq<Gd.Color>, ch: Channel): (t: nat)
    ensures t <= Gd.RED_MAX * |pix|
  {
    if |pix| == 0 then 0 else ChannelTotal(pix[..|pix| - 1], ch) + GetColor(pix[|pix| - 1], ch)
  }

  /** `interpolatePixel` with the `|` reader: with at least two non-opaque neighbours, the pixel's
      channel becomes the integer mean of theirs, with opaque alpha, and the
      result is true; otherwise nothing is written and the result is false. */
  method InterpolatePixel(im: Gd.Image, x: int, y: int, ch: Channel) returns (ok: bool, r: Gd.Image)
    requires Gd.Valid(im) && Gd.InBounds(im, x, y)
    ensures var col := Colored(Ring(im, x, y));
            (ok <==> |col| >= PIXELS_FOR_INTERP)
            && (!ok ==> r == im)
            && (ok ==> r == SetPixel(im, x, y, Mean(col, ch), ch, Gd.ALPHA_OPAQUE))
  {
    var pix := Ring(im, x, y);
    var total, numColored := CountColored(pix, ch);
    if numColored < PIXELS_FOR_INTERP {
      ok, r := false, im;
    } else {
      MeanIsByte(total, numColored);
      ok, r := true, SetPixel(im, x, y, total / numColored, ch, Gd.ALPHA_OPAQUE);
    }
  }

  /** `interpolatePixel` as written: every neighbour reads as 0, whose alpha
      is opaque, so no neighbour counts as coloured; the result is always
      false and the image is never written. */
  method InterpolatePixelAsWritten(im: Gd.Image, x: int, y: int, ch: Channel) returns (ok: bool, r: Gd.Image)
    requires Gd.Valid(im) && Gd.InBounds(im, x, y)
    ensures !ok && r == im
  {
    var pix := RingAsWritten(im, x, y);
    var total, numColored := CountColored(pix, ch);
    if numColored < PIXELS_FOR_INTERP {
      ok, r := false, im;
    } else {
      MeanIsByte(total, numColored);
      ok, r := true, SetPixelAsWritten(im, x, y, total / numColored, ch, Gd.ALPHA_OPAQUE);
    }
    NoneColored(pix);
  }

  /** Colours that are all opaque keep none. */
  lemma {:induction false} NoneColored(pix: seq<Gd.Color>)
    requires forall i | 0 <= i < |pix| :: Gd.Alpha(pix[i]) == Gd.ALPHA_OPAQUE
    ensures Colored(pix) == []
    decreases |pix|
  {
    if |pix| > 0 {
      NoneColored(pix[..|pix| - 1]);
    }
  }

  /** The loop of `interpolatePixel`: how many of the colours are not
      opaque, and the sum of their channel values. */
  method CountColored(pix: seq<Gd.Color>, ch: Channel) returns (total: nat, numColored: nat)
    ensures numColored == |Colored(pix)| && total == ChannelTotal(Colored(pix), ch)
    ensures total <= Gd.RED_MAX * numColored
  {
    total, numColored := 0, 0;
    var i := 0;
    while i < |pix|
      invariant 0 <= i <= |pix|
      invariant numColored == |Colored(pix[..i])|
      invariant total == ChannelTotal(Colored(pix[..i]), ch)
    {
      CountStep(pix, i, ch);
      if Gd.Alpha(pix[i]) != Gd.ALPHA_OPAQUE {
        numColored := numColored + 1;
        total := total + GetColor(pix[i], ch);
      }
      i := i + 1;
    }
    assert pix[..|pix|] == pix;
  }

  /** One more colour: the count and the total grow by it exactly when it is
      not opaque. */
  lemma CountStep(pix: seq<Gd.Color>, i: int, ch: Channel)
    requires 0 <= i < |pix|
    ensures var kept := Gd.Alpha(pix[i]) != Gd.ALPHA_OPAQUE;
            |Colored(pix[..i + 1])| == |Colored(pix[..i])| + (if kept then 1 else 0)
            && ChannelTotal(Colored(pix[..i + 1]), ch)
               == ChannelTotal(Colored(pix[..i]), ch) + (if kept then GetColor(pix[i], ch) else 0)
  {
    ColoredStep(pix, i);
    if Gd.Alpha(pix[i]) != Gd.ALPHA_OPAQUE {
      ChannelTotalAppend(Colored(pix[..i]), pix[i], ch);
    } else {
      assert Colored(pix[..i]) + [] == Colored(pix[..i]);
    }
  }

  lemma ColoredStep(pix: seq<Gd.Color>, i: int)
    requires 0 <= i < |pix|
    ensures Colored(pix[..i + 1])
            == Colored(pix[..i]) + (if Gd.Alpha(pix[i]) != Gd.ALPHA_OPAQUE then [pix[i]] else [])
  {
    assert pix[..i + 1][..i] == pix[..i];
  }

  lemma ChannelTotalAppend(s: seq<Gd.Color>, c: Gd.Color, ch: Channel)
    ensures ChannelTotal(s + [c], ch) == ChannelTotal(s, ch) + GetColor(c, ch)
  {
    assert (s + [c])[..|s|] == s;
  }

  /** The integer mean of the colours' channel values. */
  function Mean(col: seq<Gd.Color>, ch: Channel): byte
    requires |col| > 0
  {
    MeanIsByte(ChannelTotal(col, ch), |col|);
    ChannelTotal(col, ch) / |col|
  }

  /** The mean of n channel values is itself a channel value. */
  lemma MeanIsByte(total: int, n: int)
    requires n > 0 && 0 <= total <= Gd.RED_MAX * n
    ensures 0 <= total / n <= Gd.RED_MAX
  {
  }

  /** After a successful interpolation the pixel is opaque and its channel
      reads the integer mean of the colours averaged. */
  lemma InterpolatedPixelIsMean(im: Gd.Image, x: int, y: int, col: seq<Gd.Color>, ch: Channel)
    requires Gd.Valid(im) && Gd.InBounds(im, x, y) && |col| > 0
    ensures var n := Gd.GetPixel(SetPixel(im, x, y, Mean(col, ch), ch, Gd.ALPHA_OPAQUE), x, y);
            Gd.Alpha(n) == Gd.ALPHA_OPAQUE && GetColor(n, ch) == Mean(col, ch)
  {
    var m := Mean(col, ch);
    SetPixelEffect(im, x, y, m, ch, Gd.ALPHA_OPAQUE);
  }

  /** The mean is the floor of total / n, and lies between the smallest and
      the largest of the channel values averaged. */
  lemma MeanWithinRange(col: seq<Gd.Color>, ch: Channel)
    requires |col| > 0
    ensures |col| * Mean(col, ch) <= ChannelTotal(col, ch) < |col| * (Mean(col, ch) + 1)
    ensures exists i :: 0 <= i < |col| && GetColor(col[i], ch) <= Mean(col, ch)
    ensures exists i :: 0 <= i < |col| && GetColor(col[i], ch) >= Mean(col, ch)
  {
    var m := Mean(col, ch);
    MeanBounds(ChannelTotal(col, ch), |col|);
    if forall i :: 0 <= i < |col| ==> GetColor(col[i], ch) > m {
      TotalAtLeast(col, ch, m + 1);
      assert false;
    }
    if forall i :: 0 <= i < |col| ==> GetColor(col[i], ch) < m {
      TotalAtMost(col, ch, m);
      assert false;
    }
  }

  /** A total of values each at least lo is at least n * lo. */
  lemma {:induction false} TotalAtLeast(col: seq<Gd.Color>, ch: Channel, lo: int)
    requires forall i :: 0 <= i < |col| ==> GetColor(col[i], ch) >= lo
    ensures ChannelTotal(col, ch) >= |col| * lo
  {
    if |col| > 0 {
      var k := |col| - 1;
      var c := col[k];
      assert GetColor(c, ch) >= lo;
      assert forall i :: 0 <= i < k ==> col[..k][i] == col[i];
      TotalAtLeast(col[..k], ch, lo);
      assert ChannelTotal(col, ch) == ChannelTotal(col[..k], ch) + GetColor(c, ch);
      MulSucc(k, lo);
    }
  }

  /** A total of values each below hi is at most n * hi - n. */
  lemma {:induction false} TotalAtMost(col: seq<Gd.Color>, ch: Channel, hi: int)
    requires forall i :: 0 <= i < |col| ==> GetColor(col[i], ch) < hi
    ensures ChannelTotal(col, ch) <= |col| * hi - |col|
  {
    if |col| > 0 {
      var k := |col| - 1;
      var c := col[k];
      assert GetColor(c, ch) < hi;
      assert forall i :: 0 <= i < k ==> col[..k][i] == col[i];
      TotalAtMost(col[..k], ch, hi);
      assert ChannelTotal(col, ch) == ChannelTotal(col[..k], ch) + GetColor(c, ch);
      MulSucc(k, hi);
    }
  }

  lemma MulSucc(k: int, v: int)
    ensures (k + 1) * v == k * v + v
  {
  }

  lemma MeanBounds(total: int, n: int)
    requires n > 0 && total >= 0
    ensures n * (total / n) <= total < n * (total / n + 1)
  {
    assert total == n * (total / n) + total % n;
  }
}
