/** The header of a compressed file (metadata.cpp): the image's width and
    height and the name of the file it was compressed from. */
module MetaData {
  import opened Wrappers
  import opened IoUtils

  datatype MetaData = MetaData(width: int32, height: int32, sourceFilename: Bytes)

  /** The default constructor. */
  const Default: MetaData := MetaData(0, 0, [])

  /** The setters: each replaces its own field. Assignment is a value copy. */
  function SetWidth(m: MetaData, w: int32): (r: MetaData)
    ensures r.width == w && r.height == m.height && r.sourceFilename == m.sourceFilename
  {
    m.(width := w)
  }

  function SetHeight(m: MetaData, h: int32): (r: MetaData)
    ensures r.height == h && r.width == m.width && r.sourceFilename == m.sourceFilename
  {
    m.(height := h)
  }

  function SetSourceFilename(m: MetaData, name: Bytes): (r: MetaData)
    ensures r.sourceFilename == name && r.width == m.width && r.height == m.height
  {
    m.(sourceFilename := name)
  }

  /** `serialize`: width and height as big-endian int32, then the name as a
      length-prefixed string. */
  function Serialize(m: MetaData): (r: Bytes)
    ensures |r| >= 10 && r[..8] == EncodeI32(m.width) + EncodeI32(m.height)
    ensures r[8..] == EncodeString(m.sourceFilename)
  {
    EncodeI32(m.width) + EncodeI32(m.height) + EncodeString(m.sourceFilename)
  }

  /** The stream constructor: the same fields in the same order. */
  function Parse(b: Bytes): (r: Result<Parsed<MetaData>>)
    ensures |b| < 10 ==> r == Err(Truncated)
    ensures r.Ok? ==> |b| >= 10 && |r.value.rest| <= |b| - 10
  {
    var w :- DecodeI32(b);
    var h :- DecodeI32(w.rest);
    var name :- DecodeString(h.rest);
    Ok(Parsed(MetaData(w.value, h.value, name.value), name.rest))
  }

  /** Reading back what `serialize` wrote gives the same header when the
      name fits the 16-bit length prefix, and the name cut to 0xFFFF bytes
      otherwise. */
  lemma SerializeRoundTrip(m: MetaData, rest: Bytes)
    ensures Parse(Serialize(m) + rest)
            == Ok(Parsed(if |m.sourceFilename| <= MAX_STRING then m
                         else m.(sourceFilename := m.sourceFilename[..MAX_STRING]), rest))
  {
    var es := EncodeString(m.sourceFilename);
    ParseIntegers(m, rest);
    StringRoundTrip(m.sourceFilename, rest);
  }

  /** The two integers come back exactly and leave the encoded name. */
  lemma ParseIntegers(m: MetaData, rest: Bytes)
    ensures var es := EncodeString(m.sourceFilename);
            DecodeString(es + rest).Ok? ==>
              Parse(Serialize(m) + rest)
              == Ok(Parsed(MetaData(m.width, m.height, DecodeString(es + rest).value.value),
                           DecodeString(es + rest).value.rest))
  {
    var es := EncodeString(m.sourceFilename);
    var eh := EncodeI32(m.height);
    ReadWidth(m, rest);
    I32RoundTrip(m.height, es + rest);
  }

  lemma ReadWidth(m: MetaData, rest: Bytes)
    ensures DecodeI32(Serialize(m) + rest)
            == Ok(Parsed(m.width, EncodeI32(m.height) + (EncodeString(m.sourceFilename) + rest)))
  {
    var tail := EncodeI32(m.height) + (EncodeString(m.sourceFilename) + rest);
    Layout(m, rest);
    I32RoundTrip(m.width, tail);
  }

  lemma Layout(m: MetaData, rest: Bytes)
    ensures Serialize(m) + rest
            == EncodeI32(m.width) + (EncodeI32(m.height) + (EncodeString(m.sourceFilename) + rest))
  {
  }

  /** Serialization is injective on headers whose names fit the prefix. */
  lemma SerializeInjective(m: MetaData, n: MetaData)
    requires |m.sourceFilename| <= MAX_STRING && |n.sourceFilename| <= MAX_STRING
    requires Serialize(m) == Serialize(n)
    ensures m == n
  {
    SerializeRoundTrip(m, []);
    SerializeRoundTrip(n, []);
    assert Serialize(m) + [] == Serialize(n) + [];
  }
}
