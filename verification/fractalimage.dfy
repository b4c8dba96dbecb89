/** A compressed image (src/fractalimage.cpp): its metadata, whether it is
    greyscale or colour, and one triangle tree per channel; the file
    framing around the trees, and the encoder's loop over the channels. */
module FractalImage {
  import opened Wrappers
  import opened IoUtils
  import opened Triangle
  import ImageUtils
  import MetaData
  import TriangleTree

  /** `ImageType`. */
  datatype ImageType = Greyscale | Color

  /** `"FRACTAL"`. */
  const FRACTAL_MAGIC: Bytes := [0x46, 0x52, 0x41, 0x43, 0x54, 0x41, 0x4C]

  datatype Fractal = Fractal(metadata: MetaData.MetaData, iType: ImageType, channels: seq<TriangleTree.Tree>)

  /** The channels an image of each type has, in file order. */
  function ChannelsOf(iType: ImageType): (r: seq<ImageUtils.Channel>)
    ensures iType == Greyscale <==> |r| == 1
  {
    match iType
    case Greyscale => [ImageUtils.GreyChannel]
    case Color => [ImageUtils.RedChannel, ImageUtils.GreenChannel, ImageUtils.BlueChannel]
  }

  /** The type byte `serialize` writes. */
  function TypeByte(iType: ImageType): byte
  {
    match iType
    case Greyscale => 0
    case Color => 1
  }

  // ------------------------------------------------------------ construction

  /** The constructor from an image: the image's size in the metadata, and
      a fresh tree for each of the type's channels. */
  function New(width: int32, height: int32, iType: ImageType): (r: Fractal)
    ensures r.iType == iType && |r.channels| == |ChannelsOf(iType)|
  {
    var cs := ChannelsOf(iType);
    Fractal(MetaData.SetHeight(MetaData.SetWidth(MetaData.Default, width), height), iType,
            seq(|cs|, i requires 0 <= i < |cs| => TriangleTree.New(cs[i])))
  }

  /** A new image holds the given size and no file name, one fresh tree
      per channel of its type, each labelled with that channel and ready
      for the encoder, and two triangles per channel. */
  lemma NewFractal(width: int32, height: int32, iType: ImageType)
    ensures var f := New(width, height, iType);
            f.metadata == MetaData.MetaData(width, height, [])
            && (forall i :: 0 <= i < |f.channels| ==>
                  f.channels[i].channel == ChannelsOf(iType)[i] && TriangleTree.TreeInv(f.channels[i])
                  && f.channels[i].queue == [0, 1])
            && GetSize(f.channels) == 2 * |ChannelsOf(iType)|
  {
    var f := New(width, height, iType);
    forall i | 0 <= i < |f.channels|
      ensures f.channels[i].channel == ChannelsOf(iType)[i] && TriangleTree.TreeInv(f.channels[i])
              && f.channels[i].queue == [0, 1] && |f.channels[i].tris| == 2
    {
      TriangleTree.NewTree(ChannelsOf(iType)[i]);
    }
    SizeOfFresh(f.channels);
  }

  /** Fresh trees hold two triangles each. */
  lemma {:induction false} SizeOfFresh(ts: seq<TriangleTree.Tree>)
    requires forall i :: 0 <= i < |ts| ==> |ts[i].tris| == 2
    ensures GetSize(ts) == 2 * |ts|
  {
    if ts != [] {
      SizeOfFresh(ts[1..]);
    }
  }

  // ------------------------------------------------------------ size and method

  /** `getSize`: the number of triangles over all channels. */
  function GetSize(ts: seq<TriangleTree.Tree>): (r: nat)
    ensures (forall i :: 0 <= i < |ts| ==> TriangleTree.TreeInv(ts[i])) ==> r >= 2 * |ts|
  {
    if ts == [] then 0 else |ts[0].tris| + GetSize(ts[1..])
  }

  /** `setSubdivisionMethod`: every channel gets the method; nothing else
      changes. */
  function SetSubdivisionMethod(f: Fractal, m: TriangleTree.SubdivisionMethod): (r: Fractal)
    ensures r.metadata == f.metadata && r.iType == f.iType && |r.channels| == |f.channels|
    ensures forall i :: 0 <= i < |f.channels| ==>
              r.channels[i].sMethod == m && r.channels[i].(sMethod := f.channels[i].sMethod) == f.channels[i]
  {
    f.(channels := seq(|f.channels|, i requires 0 <= i < |f.channels| => f.channels[i].(sMethod := m)))
  }

  /** Only the last method set counts, and setting the method the channels
      already use changes nothing. */
  lemma SetSubdivisionMethodLastWins(f: Fractal, m1: TriangleTree.SubdivisionMethod, m2: TriangleTree.SubdivisionMethod)
    ensures SetSubdivisionMethod(SetSubdivisionMethod(f, m1), m2) == SetSubdivisionMethod(f, m2)
    ensures (forall i :: 0 <= i < |f.channels| ==> f.channels[i].sMethod == m1)
            ==> SetSubdivisionMethod(f, m1) == f
  {
    var g := SetSubdivisionMethod(SetSubdivisionMethod(f, m1), m2);
    assert g.channels == SetSubdivisionMethod(f, m2).channels;
    if forall i :: 0 <= i < |f.channels| ==> f.channels[i].sMethod == m1 {
      assert SetSubdivisionMethod(f, m1).channels == f.channels;
    }
  }

  // ------------------------------------------------------------ encoding

  /** `encode`: each channel in turn runs `assignOne` until the queue is
      empty (at most `fuel` steps per channel). */
  method Encode(f: Fractal, cutoff: real, o: TriangleTree.Oracles, fuel: nat) returns (r: Fractal)
    requires forall i :: 0 <= i < |f.channels| ==> TriangleTree.TreeInv(f.channels[i])
    ensures r.metadata == f.metadata && r.iType == f.iType && |r.channels| == |f.channels|
    ensures forall i :: 0 <= i < |f.channels| ==>
              r.channels[i] == TriangleTree.AssignAll(f.channels[i], cutoff, o, fuel)
    ensures forall i :: 0 <= i < |f.channels| ==>
              TriangleTree.TreeInv(r.channels[i]) && r.channels[i].channel == f.channels[i].channel
    ensures GetSize(f.channels) <= GetSize(r.channels)
  {
    var cs := f.channels;
    var i := 0;
    while i < |cs|
      invariant 0 <= i <= |cs| == |f.channels|
      invariant forall k :: 0 <= k < i ==> cs[k] == TriangleTree.AssignAll(f.channels[k], cutoff, o, fuel)
      invariant forall k :: i <= k < |cs| ==> cs[k] == f.channels[k]
    {
      cs := cs[i := TriangleTree.AssignAll(cs[i], cutoff, o, fuel)];
      i := i + 1;
    }
    SizeGrows(f.channels, cs);
    r := f.(channels := cs);
  }

  /** Channel by channel growth adds up. */
  lemma {:induction false} SizeGrows(ts: seq<TriangleTree.Tree>, us: seq<TriangleTree.Tree>)
    requires |ts| == |us| && forall i :: 0 <= i < |ts| ==> |ts[i].tris| <= |us[i].tris|
    ensures GetSize(ts) <= GetSize(us)
  {
    if ts != [] {
      SizeGrows(ts[1..], us[1..]);
    }
  }

  // ------------------------------------------------------------ the file format

  /** A channel's trees are writable: well linked and not empty. */
  predicate Writable(f: Fractal)
  {
    forall i :: 0 <= i < |f.channels| ==> Linked(f.channels[i].tris) && |f.channels[i].tris| > 0
  }

  /** The trees, one after the other. */
  function Trees(ts: seq<TriangleTree.Tree>, write: Tri -> Bytes): Bytes
    requires forall i :: 0 <= i < |ts| ==> Linked(ts[i].tris) && |ts[i].tris| > 0
  {
    if ts == [] then [] else TriangleTree.Serialize(ts[0], write) + Trees(ts[1..], write)
  }

  /** `serialize`: the magic, the metadata, the type byte, then every
      channel's tree in order. */
  function Serialize(f: Fractal, write: Tri -> Bytes): (r: Bytes)
    requires Writable(f)
    ensures |r| >= 18 && r[..7] == FRACTAL_MAGIC
    ensures r[7..] == MetaData.Serialize(f.metadata) + [TypeByte(f.iType)] + Trees(f.channels, write)
  {
    var body := MetaData.Serialize(f.metadata) + [TypeByte(f.iType)] + Trees(f.channels, write);
    SplitConcat(FRACTAL_MAGIC, body);
    FRACTAL_MAGIC + body
  }

  /** A tree as the stream constructor leaves it: its channel and the
      triangles placed at their ids. */
  datatype LoadedTree = LoadedTree(channel: ImageUtils.Channel, slots: seq<Option<Tri>>)

  datatype Loaded = Loaded(metadata: MetaData.MetaData, iType: ImageType, channels: seq<LoadedTree>)

  /** The trees of the given channels, in order. */
  function ReadTrees(b: Bytes, cs: seq<ImageUtils.Channel>, read: Bytes -> Result<Parsed<Tri>>)
    : (r: Result<Parsed<seq<LoadedTree>>>)
    ensures r.Ok? ==> |r.value.value| == |cs|
                      && forall i :: 0 <= i < |cs| ==> r.value.value[i].channel == cs[i]
    decreases |cs|
  {
    if cs == [] then Ok(Parsed([], b))
    else
      var t :- TriangleTree.Unserialize(b, read);
      var ts :- ReadTrees(t.rest, cs[1..], read);
      Ok(Parsed([LoadedTree(cs[0], t.value)] + ts.value, ts.rest))
  }

  /** The stream constructor: anything but the magic is rejected; then the
      metadata and the type byte. A zero byte means one grey tree; any other
      byte, or the end of the stream (`get` then returns EOF), means three
      trees, red, green and blue. */
  function Parse(b: Bytes, read: Bytes -> Result<Parsed<Tri>>): (r: Result<Parsed<Loaded>>)
    ensures (|b| < 7 || b[..7] != FRACTAL_MAGIC) ==> r == Err(NotValidFractalFile)
    ensures r.Ok? ==> |r.value.value.channels| == |ChannelsOf(r.value.value.iType)|
                      && forall i :: 0 <= i < |r.value.value.channels| ==>
                           r.value.value.channels[i].channel == ChannelsOf(r.value.value.iType)[i]
  {
    if |b| < 7 || b[..7] != FRACTAL_MAGIC then Err(NotValidFractalFile)
    else
      var m :- MetaData.Parse(b[7..]);
      var iType := if |m.rest| > 0 && m.rest[0] == 0 then Greyscale else Color;
      var ts :- ReadTrees(if |m.rest| > 0 then m.rest[1..] else [], ChannelsOf(iType), read);
      Ok(Parsed(Loaded(m.value, iType, ts.value), ts.rest))
  }

  /** The type byte decides the channels: 0 gives one grey tree, every
      other value three colour trees. */
  lemma TypeByteDecides(f: Fractal, b: byte)
    ensures (if b == 0 then Greyscale else Color) == Greyscale <==> b == TypeByte(Greyscale)
    ensures TypeByte(f.iType) == 0 <==> f.iType == Greyscale
  {
  }

  /** An image whose channels are labelled as its type says and whose
      trees read back. */
  predicate Rereadable(f: Fractal)
  {
    |f.channels| == |ChannelsOf(f.iType)|
    && forall i :: 0 <= i < |f.channels| ==>
         f.channels[i].channel == ChannelsOf(f.iType)[i] && TriangleTree.Rereadable(f.channels[i])
  }

  /** What reading a written image gives: the metadata (with the file name
      cut to what a string can hold), the type, and each channel's slots,
      holding what `back` keeps of each record. */
  function Reloaded(f: Fractal, back: Tri -> Tri): (r: Loaded)
    requires Rereadable(f)
  {
    var m := f.metadata;
    Loaded(if |m.sourceFilename| <= MAX_STRING then m else m.(sourceFilename := m.sourceFilename[..MAX_STRING]),
           f.iType, ReloadedTrees(f.channels, ChannelsOf(f.iType), back))
  }

  /** The trees as read back, each labelled with its channel. */
  function ReloadedTrees(ts: seq<TriangleTree.Tree>, cs: seq<ImageUtils.Channel>, back: Tri -> Tri)
    : (r: seq<LoadedTree>)
    requires |ts| == |cs| && forall i :: 0 <= i < |ts| ==> TriangleTree.Rereadable(ts[i])
    ensures |r| == |ts|
  {
    if ts == [] then []
    else [LoadedTree(cs[0], TriangleTree.Reloaded(ts[0], back))] + ReloadedTrees(ts[1..], cs[1..], back)
  }

  /** Every tree reads back with all its slots filled. */
  predicate AllFilled(ts: seq<TriangleTree.Tree>, back: Tri -> Tri)
    requires forall i :: 0 <= i < |ts| ==> TriangleTree.Rereadable(ts[i])
  {
    forall i :: 0 <= i < |ts| ==> TriangleTree.Filled(TriangleTree.Reloaded(ts[i], back))
  }

  /** Reading written trees back, channel by channel; the first tree with
      a null slot stops the reading. */
  lemma {:induction false} ReadWrittenTrees(ts: seq<TriangleTree.Tree>, cs: seq<ImageUtils.Channel>,
                                            read: Bytes -> Result<Parsed<Tri>>, write: Tri -> Bytes,
                                            back: Tri -> Tri, rest: Bytes)
    requires TriangleTree.Rereads(read, write, back) && |ts| == |cs|
    requires forall i :: 0 <= i < |ts| ==> TriangleTree.Rereadable(ts[i]) && Linked(ts[i].tris) && |ts[i].tris| > 0
    ensures ReadTrees(Trees(ts, write) + rest, cs, read)
            == if AllFilled(ts, back) then Ok(Parsed(ReloadedTrees(ts, cs, back), rest)) else Err(Unresolved)
  {
    if ts != [] {
      var tail := Trees(ts[1..], write) + rest;
      assert Trees(ts, write) + rest == TriangleTree.Serialize(ts[0], write) + tail;
      TriangleTree.SerializeRoundTrip(ts[0], read, write, back, tail);
      ReadWrittenTrees(ts[1..], cs[1..], read, write, back, rest);
      assert AllFilled(ts, back) <==> TriangleTree.Filled(TriangleTree.Reloaded(ts[0], back)) && AllFilled(ts[1..], back) by {
        assert forall i :: 1 <= i < |ts| ==> ts[1..][i - 1] == ts[i];
      }
    } else {
      assert Trees(ts, write) + rest == rest;
    }
  }

  /** Reading a written image gives back its metadata, type and trees, and
      stops right after the image, when every tree reads back with all its
      slots filled; otherwise the null slot is an error. */
  lemma SerializeRoundTrip(f: Fractal, read: Bytes -> Result<Parsed<Tri>>, write: Tri -> Bytes, back: Tri -> Tri,
                           rest: Bytes)
    requires Rereadable(f) && TriangleTree.Rereads(read, write, back)
    ensures Parse(Serialize(f, write) + rest, read)
            == if AllFilled(f.channels, back) then Ok(Parsed(Reloaded(f, back), rest)) else Err(Unresolved)
  {
    var trees := Trees(f.channels, write) + rest;
    assert Serialize(f, write) + rest == FRACTAL_MAGIC + MetaData.Serialize(f.metadata) + [TypeByte(f.iType)] + trees;
    ParseFraming(f.metadata, f.iType, trees, read);
    ReadWrittenTrees(f.channels, ChannelsOf(f.iType), read, write, back, rest);
  }

  /** The framing read back: the metadata (its file name cut to what a
      string can hold) and the type come back, and the trees are read
      from right after the type byte for the type's channels. */
  lemma ParseFraming(m: MetaData.MetaData, iType: ImageType, trees: Bytes, read: Bytes -> Result<Parsed<Tri>>)
    ensures var m' := if |m.sourceFilename| <= MAX_STRING then m
                      else m.(sourceFilename := m.sourceFilename[..MAX_STRING]);
            Parse(FRACTAL_MAGIC + MetaData.Serialize(m) + [TypeByte(iType)] + trees, read)
            == match ReadTrees(trees, ChannelsOf(iType), read)
               case Err(e) => Err(e)
               case Ok(p) => Ok(Parsed(Loaded(m', iType, p.value), p.rest))
  {
    var m' := if |m.sourceFilename| <= MAX_STRING then m else m.(sourceFilename := m.sourceFilename[..MAX_STRING]);
    var b := FRACTAL_MAGIC + MetaData.Serialize(m) + [TypeByte(iType)] + trees;
    var tail := [TypeByte(iType)] + trees;
    FramingLayout(m, iType, trees);
    MetaData.SerializeRoundTrip(m, tail);
    ParseSteps(b, read, m', tail);
  }

  /** Where the parts of a written image sit in its bytes. */
  lemma FramingLayout(m: MetaData.MetaData, iType: ImageType, trees: Bytes)
    ensures var b := FRACTAL_MAGIC + MetaData.Serialize(m) + [TypeByte(iType)] + trees;
            var tail := [TypeByte(iType)] + trees;
            |b| >= 7 && b[..7] == FRACTAL_MAGIC && b[7..] == MetaData.Serialize(m) + tail
            && |tail| > 0 && tail[0] == TypeByte(iType) && tail[1..] == trees
            && (if tail[0] == 0 then Greyscale else Color) == iType
  {
    SplitFraming(FRACTAL_MAGIC, MetaData.Serialize(m), TypeByte(iType), trees);
  }

  /** The four parts of a framed byte string, taken apart again. */
  lemma SplitFraming(a: Bytes, h: Bytes, x: byte, trees: Bytes)
    ensures var b := a + h + [x] + trees;
            var tail := [x] + trees;
            b[..|a|] == a && b[|a|..] == h + tail && |tail| > 0 && tail[0] == x && tail[1..] == trees
  {
    var tail := [x] + trees;
    assert a + h + [x] + trees == a + (h + tail);
    SplitConcat(a, h + tail);
  }

  lemma SplitConcat(a: Bytes, c: Bytes)
    ensures (a + c)[..|a|] == a && (a + c)[|a|..] == c
  {
  }

  /** `Parse` past a good magic and header: the type byte, then the trees. */
  lemma ParseSteps(b: Bytes, read: Bytes -> Result<Parsed<Tri>>, m: MetaData.MetaData, tail: Bytes)
    requires |b| >= 7 && b[..7] == FRACTAL_MAGIC
    requires MetaData.Parse(b[7..]) == Ok(Parsed(m, tail))
    requires |tail| > 0
    ensures var iType := if tail[0] == 0 then Greyscale else Color;
            Parse(b, read)
            == match ReadTrees(tail[1..], ChannelsOf(iType), read)
               case Err(e) => Err(e)
               case Ok(p) => Ok(Parsed(Loaded(m, iType, p.value), p.rest))
  {
    var iType := if tail[0] == 0 then Greyscale else Color;
    var r := ReadTrees(tail[1..], ChannelsOf(iType), read);
    if r.Ok? {
      assert Parse(b, read) == Ok(Parsed(Loaded(m, iType, r.value.value), r.value.rest));
    } else {
      assert Parse(b, read) == Err(r.error);
    }
  }
}
