/** The compressor's stand-in for the gd image library (src/gd.h): an image is
    a width, a height and a buffer of 4 bytes per pixel (alpha, red, green,
    blue), rows concatenated without padding. A colour is a C `int` holding
    alpha in bits 24-30, red in 16-23, green in 8-15 and blue in 0-7. */
module Gd {
  import opened IoUtils

  const RED_MAX: int := 255
  const BLUE_MAX: int := 255
  /** Alpha 0 is opaque, 127 fully transparent. */
  const ALPHA_OPAQUE: int := 0
  const ALPHA_TRANSPARENT: int := 127

  type Color = int32

  /** The colour lanes. Each macro masks then shifts; on a 32-bit two's
      complement value that is the same as shifting then keeping the lane's
      width, which is how they are written here. Alpha keeps 7 bits. */
  function Alpha(c: Color): (r: int)
    ensures 0 <= r <= 127
  {
    (c / 0x100_0000) % 0x80
  }

  function Red(c: Color): (r: byte)
  {
    (c / 0x1_0000) % 0x100
  }

  function Green(c: Color): (r: byte)
  {
    (c / 0x100) % 0x100
  }

  function Blue(c: Color): (r: byte)
  {
    c % 0x100
  }

  /** `gdTrueColorAlpha`: the lanes summed into place. */
  function TrueColorAlpha(r: byte, g: byte, b: byte, a: int): (c: Color)
    requires 0 <= a <= 127
    ensures c >= 0
  {
    a * 0x100_0000 + r * 0x1_0000 + g * 0x100 + b
  }

  /** Packing then reading each lane gives the lane back, and packing the
      lanes of a non-negative colour rebuilds it. */
  lemma LanesRoundTrip(r: byte, g: byte, b: byte, a: int, c: Color)
    requires 0 <= a <= 127
    ensures var p := TrueColorAlpha(r, g, b, a);
            Red(p) == r && Green(p) == g && Blue(p) == b && Alpha(p) == a
    ensures c >= 0 ==> TrueColorAlpha(Red(c), Green(c), Blue(c), Alpha(c)) == c
  {
    var p := TrueColorAlpha(r, g, b, a);
    assert p / 0x100 == a * 0x1_0000 + r * 0x100 + g;
    assert p / 0x1_0000 == a * 0x100 + r;
    assert p / 0x100_0000 == a;
    if c >= 0 {
      var q1 := c / 0x100;
      var q2 := q1 / 0x100;
      var q3 := q2 / 0x100;
      assert c / 0x1_0000 == q2;
      assert c / 0x100_0000 == q3;
      assert c == q1 * 0x100 + c % 0x100;
      assert q1 == q2 * 0x100 + q1 % 0x100;
      assert q2 == q3 * 0x100 + q2 % 0x100;
      assert q3 < 0x80;
    }
  }

  /** `fake_image`. */
  datatype Image = Image(width: int, height: int, data: Bytes)

  /** The buffer holds exactly 4 bytes per pixel. */
  predicate Valid(im: Image)
  {
    im.width >= 0 && im.height >= 0 && |im.data| == im.width * im.height * 4
  }

  predicate InBounds(im: Image, x: int, y: int)
  {
    0 <= x < im.width && 0 <= y < im.height
  }

  /** Where pixel (x, y) starts in the buffer. */
  function Offset(im: Image, x: int, y: int): (k: int)
    requires Valid(im) && InBounds(im, x, y)
    ensures 0 <= k && k + 4 <= |im.data|
    ensures k % 4 == 0
  {
    PixelFits(im.width, im.height, x, y);
    im.width * y * 4 + x * 4
  }

  lemma PixelFits(w: int, h: int, x: int, y: int)
    requires 0 <= x < w && 0 <= y < h
    ensures 0 <= w * y * 4 + x * 4 && w * y * 4 + x * 4 + 4 <= w * h * 4
  {
    assert w * y <= w * (h - 1);
  }

  /** Distinct pixels occupy disjoint 4-byte slots. */
  lemma OffsetsDisjoint(im: Image, x: int, y: int, x': int, y': int)
    requires Valid(im) && InBounds(im, x, y) && InBounds(im, x', y')
    requires x != x' || y != y'
    ensures Offset(im, x, y) + 4 <= Offset(im, x', y') || Offset(im, x', y') + 4 <= Offset(im, x, y)
  {
    if y < y' {
      RowsApart(im.width, x, y, x', y');
    } else if y' < y {
      RowsApart(im.width, x', y', x, y);
    }
  }

  /** A pixel of an earlier row ends before any pixel of a later row starts. */
  lemma RowsApart(w: int, x: int, y: int, x': int, y': int)
    requires 0 <= x < w && 0 <= x' < w && 0 <= y < y'
    ensures w * y * 4 + x * 4 + 4 <= w * y' * 4 + x' * 4
  {
    var d := y' - y - 1;
    assert w * d >= 0;
    assert w * y' == w * y + w + w * d;
  }

  /** `gdImageCreateTrueColor`: the dimensions and a buffer of sx·sy·4 bytes.
      The source leaves the bytes uninitialised; here they are 0. */
  function CreateTrueColor(sx: nat, sy: nat): (im: Image)
    ensures Valid(im) && im.width == sx && im.height == sy
  {
    Image(sx, sy, seq(sx * sy * 4, _ => 0))
  }

  /** `gdImageSetPixel`: alpha, red, green and blue into the pixel's slot. */
  function SetPixel(im: Image, x: int, y: int, c: Color): (r: Image)
    requires Valid(im) && InBounds(im, x, y)
    ensures Valid(r) && r.width == im.width && r.height == im.height
  {
    var k := Offset(im, x, y);
    Image(im.width, im.height, im.data[..k] + [Alpha(c), Red(c), Green(c), Blue(c)] + im.data[k + 4..])
  }

  /** `gdImageSetPixel` writes alpha, red, green and blue at offset
      4·(width·y + x), and no other byte changes. */
  lemma SetPixelBytes(im: Image, x: int, y: int, c: Color)
    requires Valid(im) && InBounds(im, x, y)
    ensures var k := Offset(im, x, y);
            SetPixel(im, x, y, c).data[k..k + 4] == [Alpha(c), Red(c), Green(c), Blue(c)]
    ensures var k := Offset(im, x, y);
            forall i | 0 <= i < |im.data| && !(k <= i < k + 4) :: SetPixel(im, x, y, c).data[i] == im.data[i]
  {
  }

  /** `gdImageGetPixel` as written: the four shifted bytes are joined with
      `&`. The lanes do not overlap, so the result is always 0. */
  function GetPixelAsWritten(im: Image, x: int, y: int): bv32
    requires Valid(im) && InBounds(im, x, y)
  {
    var k := Offset(im, x, y);
    JoinWithAnd(im.data[k], im.data[k + 1], im.data[k + 2], im.data[k + 3])
  }

  /** The shifted lanes joined with `&`. Each byte is widened as an
      `unsigned char` is: through 8 bits, then zero-extended. */
  function JoinWithAnd(a0: byte, a1: byte, a2: byte, a3: byte): bv32
  {
    Lanes(a0 as bv8, a1 as bv8, a2 as bv8, a3 as bv8)
  }

  function Lanes(a0: bv8, a1: bv8, a2: bv8, a3: bv8): bv32
  {
    ((a0 as bv32) << 24) & ((a1 as bv32) << 16) & ((a2 as bv32) << 8) & (a3 as bv32)
  }

  lemma GetPixelAsWrittenIsZero(im: Image, x: int, y: int)
    requires Valid(im) && InBounds(im, x, y)
    ensures GetPixelAsWritten(im, x, y) == 0
  {
    var k := Offset(im, x, y);
    LanesDisjoint(im.data[k] as bv8, im.data[k + 1] as bv8, im.data[k + 2] as bv8, im.data[k + 3] as bv8);
  }

  /** The first two lanes share no bit, so the `&` of all four is 0. */
  lemma LanesDisjoint(a0: bv8, a1: bv8, a2: bv8, a3: bv8)
    ensures Lanes(a0, a1, a2, a3) == 0
  {
  }

  /** So as written, reading a pixel does not give back the colour just
      written, for instance an opaque white pixel. */
  lemma GetPixelAsWrittenLosesColor(im: Image)
    requires Valid(im) && InBounds(im, 0, 0)
    ensures var c := TrueColorAlpha(255, 255, 255, ALPHA_OPAQUE);
            GetPixelAsWritten(SetPixel(im, 0, 0, c), 0, 0) as int != c
  {
    var c := TrueColorAlpha(255, 255, 255, ALPHA_OPAQUE);
    GetPixelAsWrittenIsZero(SetPixel(im, 0, 0, c), 0, 0);
  }

  /** `gdImageGetPixel` with the lanes joined by `|`, as evidently intended:
      the four bytes as a big-endian word, read as a C `int`. */
  function GetPixel(im: Image, x: int, y: int): Color
    requires Valid(im) && InBounds(im, x, y)
  {
    var k := Offset(im, x, y);
    FromUnsigned32(Word(im.data[k], im.data[k + 1], im.data[k + 2], im.data[k + 3]))
  }

  /** Reading a pixel gives back the non-negative colour just written there,
      and writing a pixel does not change what any other pixel reads. */
  lemma GetSetPixel(im: Image, x: int, y: int, c: Color, x': int, y': int)
    requires Valid(im) && InBounds(im, x, y) && InBounds(im, x', y')
    ensures c >= 0 ==> GetPixel(SetPixel(im, x, y, c), x, y) == c
    ensures (x != x' || y != y') ==> GetPixel(SetPixel(im, x, y, c), x', y') == GetPixel(im, x', y')
  {
    if c >= 0 {
      GetSetSamePixel(im, x, y, c);
    }
    if x != x' || y != y' {
      GetSetOtherPixel(im, x, y, c, x', y');
    }
  }

  lemma GetSetSamePixel(im: Image, x: int, y: int, c: Color)
    requires Valid(im) && InBounds(im, x, y) && c >= 0
    ensures GetPixel(SetPixel(im, x, y, c), x, y) == c
  {
    var r := SetPixel(im, x, y, c);
    var k := Offset(im, x, y);
    SetPixelBytes(im, x, y, c);
    assert Offset(r, x, y) == k;
    var slot := r.data[k..k + 4];
    assert slot == [Alpha(c), Red(c), Green(c), Blue(c)];
    assert r.data[k] == slot[0] && r.data[k + 1] == slot[1];
    assert r.data[k + 2] == slot[2] && r.data[k + 3] == slot[3];
    PackLanes(c);
  }

  lemma GetSetOtherPixel(im: Image, x: int, y: int, c: Color, x': int, y': int)
    requires Valid(im) && InBounds(im, x, y) && InBounds(im, x', y')
    requires x != x' || y != y'
    ensures GetPixel(SetPixel(im, x, y, c), x', y') == GetPixel(im, x', y')
  {
    var r := SetPixel(im, x, y, c);
    var k := Offset(im, x', y');
    SetPixelBytes(im, x, y, c);
    assert Offset(r, x', y') == k;
    OffsetsDisjoint(im, x, y, x', y');
    assert r.data[k] == im.data[k] && r.data[k + 1] == im.data[k + 1];
    assert r.data[k + 2] == im.data[k + 2] && r.data[k + 3] == im.data[k + 3];
  }

  /** The lanes of a non-negative colour, as a big-endian word, are the colour. */
  lemma PackLanes(c: Color)
    requires c >= 0
    ensures Word(Alpha(c), Red(c), Green(c), Blue(c)) == c
  {
    var a := c / 0x100_0000;
    assert a < 0x80;
    assert Alpha(c) == a;
    assert Red(c) == c / 0x1_0000 % 0x100;
    assert Green(c) == c / 0x100 % 0x100;
    assert Blue(c) == c % 0x100;
    WordOfBytes(c);
  }

  /** `gdImageClone`: a new image with the same dimensions whose buffer is
      copied byte by byte. */
  method Clone(im: Image) returns (r: Image)
    requires Valid(im)
    ensures r == im
  {
    var n := im.width * im.height * 4;
    var data: Bytes := [];
    var i := 0;
    while i < n
      invariant 0 <= i <= n
      invariant data == im.data[..i]
    {
      data := data + [im.data[i]];
      i := i + 1;
    }
    r := Image(im.width, im.height, data);
  }
}
