/** The big-endian wire format of ioutils.cpp: unsigned 16-bit and signed
    32-bit integers, length-prefixed byte strings and clamped fixed-point
    fractions. A stream is a sequence of bytes; a reader returns what it
    decoded together with the bytes it did not consume. */
module IoUtils {
  import opened Wrappers
  import opened MathUtils

  /** An `unsigned char`. */
  type byte = x: int | 0 <= x < 0x100
  type Bytes = seq<byte>

  const SLASH: byte := 0x2F

  /** The values of an `unsigned short` and of a `signed int`. */
  type uint16 = x: int | 0 <= x < 0x1_0000
  type int32 = x: int | -0x8000_0000 <= x < 0x8000_0000

  /** What a reader hands back: the decoded value and the rest of the stream. */
  datatype Parsed<+T> = Parsed(value: T, rest: Bytes)

  /** The scale of a serialized fraction: the largest `signed int`. */
  const FRACTION_SCALE: int32 := 0x7FFF_FFFF

  /** The longest string the length prefix can describe. */
  const MAX_STRING: int := 0xFFFF

  // ---------------------------------------------------------------- uint16

  /** `serializeUnsignedShort`: high byte, then low byte. */
  function EncodeU16(s: uint16): (r: Bytes)
    ensures |r| == 2
    ensures (r[0] as int) * 0x100 + r[1] == s
  {
    [(s / 0x100), (s % 0x100)]
  }

  /** `unserializeUnsignedShort`: two bytes, the first one high. */
  function DecodeU16(b: Bytes): (r: Result<Parsed<uint16>>)
    ensures |b| < 2 <==> r == Err(Truncated)
    ensures r.Ok? ==> r.value.rest == b[2..]
                      && r.value.value == (b[0] as int) * 0x100 + b[1]
  {
    if |b| < 2 then Err(Truncated)
    else Ok(Parsed((b[0] as int) * 0x100 + b[1], b[2..]))
  }

  lemma U16RoundTrip(s: uint16, rest: Bytes)
    ensures DecodeU16(EncodeU16(s) + rest) == Ok(Parsed(s, rest))
  {
    var e := EncodeU16(s) + rest;
    assert e[2..] == rest;
  }

  /** Two different byte pairs never decode to the same value. */
  lemma U16Injective(b: Bytes, c: Bytes)
    requires |b| == 2 && |c| == 2
    requires DecodeU16(b) == DecodeU16(c)
    ensures b == c
  {
    var v := DecodeU16(b).value.value;
    assert b[0] == v / 0x100 == c[0];
    assert b[1] == v % 0x100 == c[1];
  }

  // ----------------------------------------------------------------- int32

  /** The bit pattern of a `signed int` read as an `unsigned int`. */
  function ToUnsigned32(i: int32): (u: int)
    ensures 0 <= u < 0x1_0000_0000
    ensures u % 0x1_0000_0000 == i % 0x1_0000_0000
  {
    if i < 0 then i + 0x1_0000_0000 else i
  }

  /** An `unsigned int` bit pattern read back as a `signed int`. */
  function FromUnsigned32(u: int): (i: int32)
    requires 0 <= u < 0x1_0000_0000
    ensures i % 0x1_0000_0000 == u % 0x1_0000_0000
  {
    if u < 0x8000_0000 then u else u - 0x1_0000_0000
  }

  /** `serializeSignedInt`: the two's-complement bytes, most significant first. */
  function EncodeI32(i: int32): (r: Bytes)
    ensures |r| == 4
    ensures Word(r[0], r[1], r[2], r[3]) == ToUnsigned32(i)
    ensures i < 0 <==> r[0] >= 0x80
  {
    var u := ToUnsigned32(i);
    var r := [u / 0x100_0000, u / 0x1_0000 % 0x100, u / 0x100 % 0x100, u % 0x100];
    WordOfBytes(u);
    r
  }

  /** Four bytes, most significant first, read as an `unsigned int`. */
  function Word(b0: byte, b1: byte, b2: byte, b3: byte): (u: int)
    ensures 0 <= u < 0x1_0000_0000
    ensures u < 0x8000_0000 <==> b0 < 0x80
  {
    b0 * 0x100_0000 + b1 * 0x1_0000 + b2 * 0x100 + b3
  }

  lemma WordOfBytes(u: int)
    requires 0 <= u < 0x1_0000_0000
    ensures Word(u / 0x100_0000, u / 0x1_0000 % 0x100, u / 0x100 % 0x100, u % 0x100) == u
  {
    var q1 := u / 0x100;
    var q2 := q1 / 0x100;
    assert u / 0x1_0000 == q2;
    assert u / 0x100_0000 == q2 / 0x100;
    assert u == q1 * 0x100 + u % 0x100;
    assert q1 == q2 * 0x100 + q1 % 0x100;
    assert q2 == (q2 / 0x100) * 0x100 + q2 % 0x100;
  }

  /** `unserializeSignedInt`: four bytes, most significant first, as two's complement. */
  function DecodeI32(b: Bytes): (r: Result<Parsed<int32>>)
    ensures |b| < 4 <==> r == Err(Truncated)
    ensures r.Ok? ==> r.value.rest == b[4..] && (r.value.value < 0 <==> b[0] >= 0x80)
  {
    if |b| < 4 then Err(Truncated)
    else
      Ok(Parsed(FromUnsigned32(Word(b[0], b[1], b[2], b[3])), b[4..]))
  }

  lemma I32RoundTrip(i: int32, rest: Bytes)
    ensures DecodeI32(EncodeI32(i) + rest) == Ok(Parsed(i, rest))
  {
    var e := EncodeI32(i) + rest;
    assert e[4..] == rest;
  }

  // ---------------------------------------------------------------- string

  /** `serializeString`: the length, capped at 0xFFFF, then that many bytes. */
  function EncodeString(s: Bytes): (r: Bytes)
    ensures |s| <= MAX_STRING ==> r == EncodeU16(|s|) + s
    ensures |s| > MAX_STRING ==> r == EncodeU16(MAX_STRING) + s[..MAX_STRING]
    ensures |r| == 2 + Min(|s|, MAX_STRING)
  {
    var len: uint16 := if |s| <= MAX_STRING then |s| else MAX_STRING;
    EncodeU16(len) + s[..len]
  }

  /** `unserializeString`: a length, then that many bytes. Decoding fails
      exactly when the stream is shorter than its prefix says. */
  function DecodeString(b: Bytes): (r: Result<Parsed<Bytes>>)
    ensures r.Ok? <==> |b| >= 2 && |b| - 2 >= (b[0] as int) * 0x100 + b[1]
    ensures r.Ok? ==> |r.value.value| == (b[0] as int) * 0x100 + b[1] <= MAX_STRING
                      && b == b[..2] + r.value.value + r.value.rest
    ensures r.Err? ==> r.error == Truncated
  {
    var len :- DecodeU16(b);
    if |len.rest| < len.value then Err(Truncated)
    else Ok(Parsed(len.rest[..len.value], len.rest[len.value..]))
  }

  /** A string of at most 0xFFFF bytes comes back whole; a longer one comes back
      as its first 0xFFFF bytes. */
  lemma StringRoundTrip(s: Bytes, rest: Bytes)
    ensures DecodeString(EncodeString(s) + rest)
            == Ok(Parsed(if |s| <= MAX_STRING then s else s[..MAX_STRING], rest))
  {
    var len: uint16 := if |s| <= MAX_STRING then |s| else MAX_STRING;
    var e := EncodeString(s) + rest;
    var tail := s[..len] + rest;
    assert e == EncodeU16(len) + tail;
    U16RoundTrip(len, tail);
    assert DecodeU16(e) == Ok(Parsed(len, tail));
    assert tail[..len] == s[..len];
    assert tail[len..] == rest;
    assert |s| <= MAX_STRING ==> s[..len] == s;
  }

  // -------------------------------------------------------------- fraction

  /** `d` moved into [min, max], as `serializeFraction` does first. */
  function Clamp(d: real, min: int, max: int): (r: real)
    requires min <= max
    ensures min as real <= r <= max as real
    ensures min as real <= d <= max as real ==> r == d
    ensures d < min as real ==> r == min as real
    ensures d > max as real ==> r == max as real
  {
    if d < min as real then min as real else if d > max as real then max as real else d
  }

  /** Where the clamped `d` sits in [min, max], as a fraction of the range. */
  function FractionPosition(d: real, min: int, max: int): (v: real)
    requires min < max
    ensures 0.0 <= v <= 1.0
    ensures ((max - min) as real) * v == Clamp(d, min, max) - min as real
  {
    var c := Clamp(d, min, max);
    DivUnit(c - min as real, (max - min) as real);
    (c - min as real) / ((max - min) as real)
  }

  /** The integer `serializeFraction` writes: the position scaled to
      [0, 0x7FFFFFFF] and rounded. The branch for a negative value never
      fires, because the position is never negative. */
  function FractionCode(d: real, min: int, max: int): (f: int32)
    requires min < max
    ensures 0 <= f <= FRACTION_SCALE
    ensures Abs(f as real - (FRACTION_SCALE as real) * FractionPosition(d, min, max)) <= 0.5
  {
    var f := Round((FRACTION_SCALE as real) * FractionPosition(d, min, max));
    if f < 0 then FRACTION_SCALE else f
  }

  /** `serializeFraction`. A zero-width range divides by zero in the source. */
  function EncodeFraction(d: real, min: int, max: int): (r: Bytes)
    requires min < max
    ensures |r| == 4
    ensures DecodeI32(r) == Ok(Parsed(FractionCode(d, min, max), []))
  {
    var f := FractionCode(d, min, max);
    I32RoundTrip(f, []);
    assert EncodeI32(f) + [] == EncodeI32(f);
    EncodeI32(f)
  }

  /** The real `unserializeFraction` computes from a stored integer, before clamping. */
  function FractionValue(f: int32, min: int, max: int): real
  {
    ((max - min) as real) * ((f as real) / (FRACTION_SCALE as real)) + min as real
  }

  /** `unserializeFraction`: the stored integer over 0x7FFFFFFF, scaled into
      [min, max] and clamped there. */
  function DecodeFraction(b: Bytes, min: int, max: int): (r: Result<Parsed<real>>)
    ensures |b| < 4 <==> r == Err(Truncated)
    ensures r.Ok? && min <= max ==> min as real <= r.value.value <= max as real
    ensures r.Ok? ==> r.value.rest == b[4..]
  {
    var f :- DecodeI32(b);
    var x := FractionValue(f.value, min, max);
    Ok(Parsed(if x > max as real then max as real else if x < min as real then min as real else x, f.rest))
  }

  /** The unsigned-short reader looks only at its two bytes. */
  lemma DecodeU16Prefix(b: Bytes, rest: Bytes)
    requires |b| >= 2
    ensures DecodeU16(b + rest) == Ok(Parsed(DecodeU16(b).value.value, DecodeU16(b).value.rest + rest))
  {
    assert (b + rest)[2..] == b[2..] + rest;
  }

  /** The fraction reader looks only at its four bytes. */
  lemma DecodeFractionPrefix(b: Bytes, rest: Bytes, min: int, max: int)
    requires |b| >= 4
    ensures DecodeFraction(b + rest, min, max)
            == Ok(Parsed(DecodeFraction(b, min, max).value.value, DecodeFraction(b, min, max).value.rest + rest))
  {
    assert (b + rest)[4..] == b[4..] + rest;
    assert (b + rest)[0] == b[0] && (b + rest)[1] == b[1] && (b + rest)[2] == b[2] && (b + rest)[3] == b[3];
  }

  /** A negative stored integer decodes to `min`. */
  lemma NegativeFractionIsMin(b: Bytes, min: int, max: int)
    requires min < max
    requires DecodeI32(b).Ok? && DecodeI32(b).value.value < 0
    ensures DecodeFraction(b, min, max).Ok?
    ensures DecodeFraction(b, min, max).value.value == min as real
  {
    NegativeFractionValue(DecodeI32(b).value.value, min, max);
  }

  lemma NegativeFractionValue(f: int32, min: int, max: int)
    requires min < max && f < 0
    ensures FractionValue(f, min, max) < min as real
  {
    var q := (f as real) / (FRACTION_SCALE as real);
    assert q < 0.0;
    assert ((max - min) as real) * q < 0.0;
  }

  /** Decoding an encoded fraction gives the clamped input back to within half
      a step of the 0x7FFFFFFF-step grid over [min, max]. */
  lemma FractionRoundTrip(d: real, min: int, max: int, rest: Bytes)
    requires min < max
    ensures DecodeFraction(EncodeFraction(d, min, max) + rest, min, max).Ok?
    ensures var back := DecodeFraction(EncodeFraction(d, min, max) + rest, min, max).value;
            back.rest == rest
            && Abs(back.value - Clamp(d, min, max)) <= ((max - min) as real) / (2.0 * FRACTION_SCALE as real)
  {
    var f := FractionCode(d, min, max);
    I32RoundTrip(f, rest);
    FractionValueClose(d, min, max);
  }

  /** The unclamped decoded value is within half a step of the clamped input. */
  lemma FractionValueClose(d: real, min: int, max: int)
    requires min < max
    ensures Abs(FractionValue(FractionCode(d, min, max), min, max) - Clamp(d, min, max))
            <= ((max - min) as real) / (2.0 * FRACTION_SCALE as real)
  {
    var range := (max - min) as real;
    var k := FRACTION_SCALE as real;
    var code := FractionCode(d, min, max);
    var f := code as real;
    var c := Clamp(d, min, max);
    var v := FractionPosition(d, min, max);
    assert FractionValue(code, min, max) == range * (f / k) + min as real;
    CloseCore(range, k, f, v, c, min as real);
  }

  // -------------------------------------------------------- real arithmetic

  lemma DivUnit(a: real, b: real)
    requires b > 0.0 && 0.0 <= a <= b
    ensures 0.0 <= a / b <= 1.0
    ensures b * (a / b) == a
  {
  }

  /** Scaling an error of at most one half by a positive factor. */
  lemma ScaledHalf(a: real, e: real)
    requires a > 0.0 && Abs(e) <= 0.5
    ensures Abs(a * e) <= a / 2.0
  {
    if e >= 0.0 {
      assert a * e >= 0.0;
      assert a * (0.5 - e) >= 0.0;
    } else {
      var g := 0.5 + e;
      assert g >= 0.0;
      assert a * g >= 0.0;
      assert a * e <= 0.0;
    }
  }

  /** The decoding arithmetic: a code within one half of k·v, mapped back by
      range/k, lands within range/(2k) of the value v stands for. */
  lemma CloseCore(range: real, k: real, f: real, v: real, c: real, mn: real)
    requires range > 0.0 && k > 0.0 && Abs(f - k * v) <= 0.5 && range * v == c - mn
    ensures Abs(range * (f / k) + mn - c) <= range / (2.0 * k)
  {
    var a := range / k;
    var e := f - k * v;
    assert range * (f / k) + mn - c == a * e;
    ScaledHalf(a, e);
    assert a / 2.0 == range / (2.0 * k);
  }

  // -------------------------------------------------------------- basename

  /** The index of the last '/' in `name`, as `rfind('/')` finds it. */
  function LastSlash(name: Bytes): (r: Option<nat>)
    ensures r.None? <==> SLASH !in name
    ensures r.Some? ==> r.value < |name| && name[r.value] == SLASH
                        && forall j | r.value < j < |name| :: name[j] != SLASH
  {
    if |name| == 0 then None
    else if name[|name| - 1] == SLASH then Some(|name| - 1)
    else
      var init := name[..|name| - 1];
      assert forall j | 0 <= j < |init| :: init[j] == name[j];
      LastSlash(init)
  }

  /** `getBasename`: the name itself if it holds no '/', otherwise its suffix
      starting AT the last '/', so the slash is kept. */
  function Basename(name: Bytes): (r: Bytes)
    ensures SLASH !in name ==> r == name
    ensures SLASH in name ==> 0 < |r| <= |name| && r[0] == SLASH && SLASH !in r[1..]
                              && name == name[..|name| - |r|] + r
  {
    match LastSlash(name)
    case None => name
    case Some(k) =>
      assert name == name[..k] + name[k..];
      name[k..]
  }
}
