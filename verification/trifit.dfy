/** A fit record (src/trifit.cpp): the contrast (saturation) and brightness
    that map a source triangle onto a target, the fit's error, the vertex
    correspondence used, and the source triangle itself. */
module TriFit {
  import opened Wrappers
  import opened MathUtils
  import opened IoUtils

  /** `PointMap`: Pabc sends vertex 0, 1, 2 of one triangle to vertex a, b, c
      of the other; P000 is "no map". */
  datatype PointMap = P012 | P021 | P102 | P120 | P201 | P210 | P000

  /** `NUM_MAPS`: the real maps are the first six. */
  const NUM_MAPS: nat := 6

  /** The serialized form of the source pointer when there is none. */
  const NO_SOURCE: uint16 := 0xFFFF

  /** `pointMapToInt`: the map's position in the enumeration. */
  function PointMapToInt(m: PointMap): (r: byte)
    ensures r <= NUM_MAPS
    ensures r == NUM_MAPS <==> m == P000
  {
    match m
    case P012 => 0
    case P021 => 1
    case P102 => 2
    case P120 => 3
    case P201 => 4
    case P210 => 5
    case P000 => 6
  }

  /** `pointMapFromInt`: position to map; every out-of-range code is P000. */
  function PointMapFromInt(i: nat): (m: PointMap)
    ensures i >= NUM_MAPS ==> m == P000
  {
    if i == 0 then P012
    else if i == 1 then P021
    else if i == 2 then P102
    else if i == 3 then P120
    else if i == 4 then P201
    else if i == 5 then P210
    else P000
  }

  lemma PointMapCodec(m: PointMap, i: nat)
    ensures PointMapFromInt(PointMapToInt(m) as nat) == m
    ensures i <= NUM_MAPS ==> PointMapToInt(PointMapFromInt(i)) as nat == i
  {
  }

  /** `getPoint0`, `getPoint1` and `getPoint2`: the first, second and third
      digit of the map's name; P000 gives (unsigned char) -1. */
  function GetPoint0(m: PointMap): byte
  {
    match m
    case P012 | P021 => 0
    case P102 | P120 => 1
    case P201 | P210 => 2
    case P000 => 255
  }

  function GetPoint1(m: PointMap): byte
  {
    match m
    case P102 | P201 => 0
    case P012 | P210 => 1
    case P021 | P120 => 2
    case P000 => 255
  }

  function GetPoint2(m: PointMap): byte
  {
    match m
    case P120 | P210 => 0
    case P201 | P021 => 1
    case P102 | P012 => 2
    case P000 => 255
  }

  /** The vertex each of the three vertices is sent to, as a sequence. */
  function Targets(m: PointMap): seq<byte>
  {
    [GetPoint0(m), GetPoint1(m), GetPoint2(m)]
  }

  /** Each real map is a permutation of the three vertices, the six real maps
      are the six different permutations, and P000 gives 255 three times. */
  lemma GettersArePermutations(m: PointMap, n: PointMap)
    ensures m != P000 ==> GetPoint0(m) < 3 && GetPoint1(m) < 3 && GetPoint2(m) < 3
                          && GetPoint0(m) != GetPoint1(m) && GetPoint0(m) != GetPoint2(m)
                          && GetPoint1(m) != GetPoint2(m)
    ensures m == P000 <==> Targets(m) == [255, 255, 255]
    ensures Targets(m) == Targets(n) ==> m == n
  {
  }

  /** The getters of each real map spell out the digits of its name. */
  lemma GettersMatchNames()
    ensures Targets(P012) == [0, 1, 2] && Targets(P021) == [0, 2, 1]
    ensures Targets(P102) == [1, 0, 2] && Targets(P120) == [1, 2, 0]
    ensures Targets(P201) == [2, 0, 1] && Targets(P210) == [2, 1, 0]
  {
  }

  /** A fit. `best` is the source triangle, by its handle in the triangle
      arena, or None for the null pointer. */
  datatype Fit = Fit(saturation: real, brightness: real, error: real, pMap: PointMap, best: Option<nat>)

  /** The default constructor: no fit yet, signalled by error -1. */
  const DefaultFit: Fit := Fit(0.0, 0.0, -1.0, P000, None)

  /** The id a handle is written as. A handle is the source triangle's
      position in the arena; the source writes that triangle's own id
      (`serializeID`). The two agree for the arena of a tree that keeps
      `TriangleTree.TreeInv`, where an assigned triangle at position k carries id
      k mod 0x10000; for any other handle this is the model's choice. */
  function IdOf(handle: nat): uint16
  {
    handle % 0x1_0000
  }

  /** `serialize`: saturation over [0, 1], brightness over [-255, 255], error
      over [0, 255], the map code byte, then the source's id or 0xFFFF. */
  function Serialize(f: Fit): (r: Bytes)
    ensures |r| == 15
    ensures r[12] == PointMapToInt(f.pMap)
    ensures r[13..] == EncodeU16(if f.best.Some? then IdOf(f.best.value) else NO_SOURCE)
  {
    var id := if f.best.Some? then IdOf(f.best.value) else NO_SOURCE;
    EncodeFraction(f.saturation, 0, 1) + EncodeFraction(f.brightness, -255, 255)
    + EncodeFraction(f.error, 0, 255) + [PointMapToInt(f.pMap)] + EncodeU16(id)
  }

  /** What the stream constructor yields: the fit with a null source, and the
      raw source id it read, left for the caller to resolve. */
  datatype ParsedFit = ParsedFit(fit: Fit, sourceId: uint16)

  /** The stream constructor: the fields in the order `serialize` writes them. */
  function Parse(b: Bytes): (r: Result<Parsed<ParsedFit>>)
    ensures |b| < 15 <==> r.Err?
    ensures r.Ok? ==> r.value.rest == b[15..] && r.value.value.fit.best.None?
                      && r.value.value.fit.pMap == PointMapFromInt(b[12])
                      && r.value.value.sourceId == (b[13] as int) * 0x100 + b[14]
                      && 0.0 <= r.value.value.fit.saturation <= 1.0
                      && -255.0 <= r.value.value.fit.brightness <= 255.0
                      && 0.0 <= r.value.value.fit.error <= 255.0
  {
    var s :- DecodeFraction(b, 0, 1);
    var o :- DecodeFraction(s.rest, -255, 255);
    var e :- DecodeFraction(o.rest, 0, 255);
    if |e.rest| == 0 then Err(Truncated)
    else
      var t :- DecodeU16(e.rest[1..]);
      Ok(Parsed(ParsedFit(Fit(s.value, o.value, e.value, PointMapFromInt(e.rest[0]), None), t.value), t.rest))
  }

  /** Parsing looks only at the 15 bytes of its record: what follows is
      handed back untouched. */
  lemma ParsePrefix(b: Bytes, rest: Bytes)
    requires |b| >= 15
    ensures Parse(b + rest).Ok? && Parse(b).Ok?
    ensures Parse(b + rest) == Ok(Parsed(Parse(b).value.value, Parse(b).value.rest + rest))
  {
    var s := DecodeFraction(b, 0, 1).value;
    var o := DecodeFraction(s.rest, -255, 255).value;
    var e := DecodeFraction(o.rest, 0, 255).value;
    var t := DecodeU16(e.rest[1..]).value;
    assert Parse(b) == Ok(Parsed(ParsedFit(Fit(s.value, o.value, e.value, PointMapFromInt(e.rest[0]), None), t.value),
                                 t.rest));
    FieldsPrefix(b, rest);
  }

  /** The three fractions and the map byte of a record, read with more
      bytes after it, are those read without. */
  lemma FieldsPrefix(b: Bytes, rest: Bytes)
    requires |b| >= 15
    ensures var s := DecodeFraction(b, 0, 1).value;
            var o := DecodeFraction(s.rest, -255, 255).value;
            var e := DecodeFraction(o.rest, 0, 255).value;
            var t := DecodeU16(e.rest[1..]).value;
            Parse(b + rest)
            == Ok(Parsed(ParsedFit(Fit(s.value, o.value, e.value, PointMapFromInt(e.rest[0]), None), t.value),
                         t.rest + rest))
  {
    var s := DecodeFraction(b, 0, 1).value;
    DecodeFractionPrefix(b, rest, 0, 1);
    var o := DecodeFraction(s.rest, -255, 255).value;
    DecodeFractionPrefix(s.rest, rest, -255, 255);
    var e := DecodeFraction(o.rest, 0, 255).value;
    DecodeFractionPrefix(o.rest, rest, 0, 255);
    assert (e.rest + rest)[0] == e.rest[0];
    assert (e.rest + rest)[1..] == e.rest[1..] + rest;
    DecodeU16Prefix(e.rest[1..], rest);
  }

  /** Reading a written fit: the map and the source id come back exactly, the
      source pointer comes back null, and the three reals come back clamped to
      their ranges within half a step of the fraction grid. */
  lemma SerializeRoundTrip(f: Fit, rest: Bytes)
    ensures Parse(Serialize(f) + rest).Ok?
    ensures var p := Parse(Serialize(f) + rest).value;
            p.rest == rest
            && p.value.fit.pMap == f.pMap
            && p.value.fit.best == None
            && p.value.sourceId == (if f.best.Some? then IdOf(f.best.value) else NO_SOURCE)
            && Abs(p.value.fit.saturation - Clamp(f.saturation, 0, 1)) <= 1.0 / (2.0 * FRACTION_SCALE as real)
            && Abs(p.value.fit.brightness - Clamp(f.brightness, -255, 255)) <= 510.0 / (2.0 * FRACTION_SCALE as real)
            && Abs(p.value.fit.error - Clamp(f.error, 0, 255)) <= 255.0 / (2.0 * FRACTION_SCALE as real)
  {
    var id: uint16 := if f.best.Some? then IdOf(f.best.value) else NO_SOURCE;
    var ee := EncodeFraction(f.error, 0, 255);
    var tail := [PointMapToInt(f.pMap)] + (EncodeU16(id) + rest);
    var eo := EncodeFraction(f.brightness, -255, 255) + (ee + tail);
    var es := EncodeFraction(f.saturation, 0, 1) + eo;
    ParseWritten(f, rest);
    FieldsClose(f, eo, ee + tail, tail);
  }

  lemma SerializeLayout(f: Fit, rest: Bytes)
    ensures var id: uint16 := if f.best.Some? then IdOf(f.best.value) else NO_SOURCE;
            Serialize(f) + rest
            == EncodeFraction(f.saturation, 0, 1) + (EncodeFraction(f.brightness, -255, 255)
               + (EncodeFraction(f.error, 0, 255) + ([PointMapToInt(f.pMap)] + (EncodeU16(id) + rest))))
  {
  }

  /** Each fraction read from its own four bytes is within half a step of
      the clamped field. */
  lemma FieldsClose(f: Fit, eo: Bytes, et: Bytes, tail: Bytes)
    ensures Abs(DecodeFraction(EncodeFraction(f.saturation, 0, 1) + eo, 0, 1).value.value
                - Clamp(f.saturation, 0, 1)) <= 1.0 / (2.0 * FRACTION_SCALE as real)
    ensures Abs(DecodeFraction(EncodeFraction(f.brightness, -255, 255) + et, -255, 255).value.value
                - Clamp(f.brightness, -255, 255)) <= 510.0 / (2.0 * FRACTION_SCALE as real)
    ensures Abs(DecodeFraction(EncodeFraction(f.error, 0, 255) + tail, 0, 255).value.value
                - Clamp(f.error, 0, 255)) <= 255.0 / (2.0 * FRACTION_SCALE as real)
  {
    FractionRoundTrip(f.saturation, 0, 1, eo);
    FractionRoundTrip(f.brightness, -255, 255, et);
    FractionRoundTrip(f.error, 0, 255, tail);
  }

  /** The fields of a written fit, read back in order: each fraction from its
      own four bytes, then the map byte and the source id. */
  lemma ParseWritten(f: Fit, rest: Bytes)
    ensures var id: uint16 := if f.best.Some? then IdOf(f.best.value) else NO_SOURCE;
            var ee := EncodeFraction(f.error, 0, 255);
            var tail := [PointMapToInt(f.pMap)] + (EncodeU16(id) + rest);
            var eo := EncodeFraction(f.brightness, -255, 255) + (ee + tail);
            var es := EncodeFraction(f.saturation, 0, 1) + eo;
            Parse(Serialize(f) + rest)
            == Ok(Parsed(ParsedFit(Fit(DecodeFraction(es, 0, 1).value.value,
                                       DecodeFraction(eo, -255, 255).value.value,
                                       DecodeFraction(ee + tail, 0, 255).value.value, f.pMap, None), id), rest))
  {
    var id: uint16 := if f.best.Some? then IdOf(f.best.value) else NO_SOURCE;
    var ee := EncodeFraction(f.error, 0, 255);
    var tail := [PointMapToInt(f.pMap)] + (EncodeU16(id) + rest);
    var eo := EncodeFraction(f.brightness, -255, 255) + (ee + tail);
    var es := EncodeFraction(f.saturation, 0, 1) + eo;
    SerializeLayout(f, rest);
    assert DecodeFraction(es, 0, 1).value.rest == eo;
    assert DecodeFraction(eo, -255, 255).value.rest == ee + tail;
    assert DecodeFraction(ee + tail, 0, 255).value.rest == tail;
    assert tail[1..] == EncodeU16(id) + rest;
    U16RoundTrip(id, rest);
    PointMapCodec(f.pMap, 0);
  }

  /** A negative error, the default fit's -1 among them, is written as 0, so
      it reads back as 0 rather than as itself. */
  lemma NegativeErrorReadsAsZero(f: Fit)
    requires f.error < 0.0
    ensures Parse(Serialize(f)).Ok? && Parse(Serialize(f)).value.value.fit.error == 0.0
  {
    SerializeRoundTrip(f, []);
    assert Serialize(f) + [] == Serialize(f);
    assert FractionPosition(f.error, 0, 255) == 0.0;
    assert FractionCode(f.error, 0, 255) == 0;
  }
}
