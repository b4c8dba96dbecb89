# Fractal image compression, modelled in Dafny

This project models the core of a triangle-based fractal image compressor.
The image is covered by two triangles that split the unit square. An encoder
takes triangles from a queue, one at a time. Each one is either matched
against a larger triangle found higher up in the subdivision tree, or split
into four children that join the queue. The result is written to a binary
file: the magic `FRACTAL`, a metadata header, an image-type byte, and one
`TREE` section per colour channel. Numbers in the file are big-endian
integers and fixed-point fractions.

The Dafny modules follow the source files:

- `Wrappers`: `Option`, `Result` and the error codes.
- `MathUtils`: the numeric helpers.
- `IoUtils`: the wire format.
- `Point2D`, `Rectangle`, `TriFit`, `Affine`, `MetaData`: the value classes.
- `Gd`: the in-house stand-in for the gd image library.
- `ImageUtils`: channel access, edge detection and hole filling.
- `Triangle`: triangles kept in an arena. Pointers become indices, and the
  sibling, parent and child links are `Option<nat>` fields.
- `DoubleImage`: the least-squares fit and the best-match search.
- `TriangleTree`: the encoder's queue, the candidate walks and the tree
  codec.
- `FractalImage`: the image as a set of channel trees, with its file format.

`double` is modelled as `real`. Fixed-width integers are `nat` or `int`, and
they are wrapped or range-checked explicitly where the source depends on the
width. The source's side effects are modelled as follows:

- Streams become byte sequences. A reader returns its value and the rest of
  the stream.
- Exceptions and null results become `Result` errors. A reader that meets
  the end of the stream also returns an error, `Truncated`; the source
  reads past the end unchecked (see Left out).
- Reading pixels, sampling triangles and the record codec of a single
  triangle are function parameters.

## Model

| member | source | states |
|---|---|---|
| MathUtils.Round | src/mathutils.h:72-80 | C `round`: the result is within one half of the input, and halves go away from zero |
| MathUtils.DoubleToInt | src/mathutils.h:72-80 | with x = min + round(d·max): x at or below min gives min, x above min and at or beyond max gives max, anything strictly between is x itself; the result lies in [min, max] |
| MathUtils.Avg | src/mathutils.h:46-48 | no average for an empty range; otherwise the average times the count is the sum |
| MathUtils.Signum | src/mathutils.h:68-70 | the sign is 1, -1 or 0; sign times value is the absolute value; zero exactly for zero |
| MathUtils.SumSquares | src/mathutils.h:38-52 | the left fold of squares is never negative |
| MathUtils.SumAppend | src/mathutils.h:34-44 | the left-fold sum splits over a concatenation |
| MathUtils.DotProductSelf | src/mathutils.h:50-62 | a dot product of a sequence with itself is its sum of squares |
| MathUtils.DotProductSymmetric | src/mathutils.h:54-62 | the dot product is symmetric |
| MathUtils.DoublesEqualReflexiveSymmetric | src/mathutils.h:64-66 | equality within ZERO is reflexive and symmetric |
| MathUtils.DoublesEqualNotTransitive | src/mathutils.h:32-66 | equality within ZERO is not transitive: a concrete chain of three values |
| IoUtils.EncodeU16 | ioutils.cpp:11-15 | two bytes, high byte first, whose big-endian value is the input |
| IoUtils.DecodeU16 | ioutils.cpp:65-70 | fails exactly on fewer than two bytes; otherwise consumes exactly two |
| IoUtils.U16RoundTrip | ioutils.cpp:65-70 | decoding what `serializeUnsignedShort` (ioutils.cpp:11) wrote: decoding an encoded unsigned short gives it back, with the rest of the stream untouched |
| IoUtils.U16Injective | ioutils.cpp:65-70 | two byte pairs that decode alike are equal |
| IoUtils.EncodeI32 | ioutils.cpp:17-23 | four two's-complement bytes, most significant first; the top bit is set exactly for negatives |
| IoUtils.DecodeI32 | ioutils.cpp:81-89 | fails exactly on fewer than four bytes; the sign follows the first byte's top bit |
| IoUtils.I32RoundTrip | ioutils.cpp:81-89 | reading what `serializeSignedInt` (ioutils.cpp:17) wrote: decoding an encoded signed int gives it back for the whole 32-bit range |
| IoUtils.EncodeString | ioutils.cpp:25-29 | a 16-bit length, then the bytes; names longer than 0xFFFF are cut at 0xFFFF |
| IoUtils.ToUnsigned32 | ioutils.cpp:17-23 | the bit pattern of a signed int: in [0, 2^32) and congruent to it modulo 2^32 |
| IoUtils.FromUnsigned32 | ioutils.cpp:81-89 | the signed int of a 32-bit pattern: congruent to it modulo 2^32 |
| IoUtils.DecodeString | ioutils.cpp:91-96 | fails, as `Truncated`, exactly when the stream is shorter than its two-byte prefix plus the length it names; otherwise the value has that length (at most 0xFFFF) and the stream is prefix, value, rest |
| IoUtils.StringRoundTrip | ioutils.cpp:91-96 | reading what `serializeString` (ioutils.cpp:25) wrote: a string comes back whole when it fits, and otherwise as its first 0xFFFF bytes |
| IoUtils.Clamp | ioutils.cpp:31-38 | the value moved into [min, max], unchanged when it was already inside |
| IoUtils.FractionCode | ioutils.cpp:31-45 | the stored integer lies in [0, 0x7FFFFFFF], within one half of the clamped position scaled by 0x7FFFFFFF |
| IoUtils.EncodeFraction | ioutils.cpp:31-45 | four bytes that decode as the fraction code |
| IoUtils.DecodeFraction | ioutils.cpp:47-63 | fails exactly on fewer than four bytes; the value is clamped into [min, max] |
| IoUtils.NegativeFractionIsMin | ioutils.cpp:47-63 | a negative stored integer decodes to min |
| IoUtils.FractionRoundTrip | ioutils.cpp:31-63 | decoding an encoded fraction gives the clamped input to within half a grid step, (max-min)/(2·0x7FFFFFFF) |
| IoUtils.FractionValueClose | ioutils.cpp:31-63 | before the final clamp, the decoded value is already within half a grid step of the clamped input |
| IoUtils.LastSlash | ioutils.cpp:98-105 | `rfind('/')`: none exactly when there is no slash; otherwise the index of a slash with no slash after it |
| IoUtils.Basename | ioutils.cpp:98-105 | a name without '/' is returned whole; otherwise a non-empty suffix that starts at the last '/' |
| Point2D.DistanceSquared | src/point2d.cpp:44-56 | the squared distance is never negative |
| Point2D.DistanceSquaredProperties | src/point2d.cpp:44-56 | the squared distance is symmetric, zero from a point to itself, and equals the origin distance when measured from (0, 0) |
| Point2D.PointTestValues | point2dtest.hpp:19-47 | the values the point tests expect: 8 between (0,0) and (2,2), 0 to itself, and `==` on those points |
| Point2D.EqualReflexiveSymmetric | src/point2d.cpp:58-60 | `operator==` (within ZERO per coordinate) is reflexive and symmetric |
| Point2D.LessStrictOrder | src/point2d.cpp:62-64 | `operator<` is irreflexive and transitive; points at the same origin distance are unordered |
| Point2D.Serialize | src/point2d.cpp:82-85 | two fractions of [0, 1], eight bytes |
| Point2D.Parse | src/point2d.cpp:87-90 | fails exactly on fewer than eight bytes; otherwise consumes eight |
| Point2D.SerializeRoundTrip | src/point2d.cpp:82-90 | reading a written point gives each coordinate clamped into [0, 1], to within half a grid step |
| Rectangle.EdgesAndArea | rectangle.cpp:30-60 | the edges are the corner plus width and height; the area is non-negative |
| Rectangle.PointInsideRejectsCentre | rectangle.cpp:34-41 | `pointInside` as written rejects the centre of a unit square placed at (10, 0) |
| Rectangle.PointInsideCorrectedMeansInside | rectangle.cpp:34-41 | the corrected test holds exactly for the points of the closed rectangle widened by less than ZERO on each side, so every point of the rectangle passes |
| TriFit.PointMapToInt | src/trifit.cpp:37-62 | codes 0 to 6 in enumeration order; 6 exactly for P000 |
| TriFit.PointMapFromInt | src/trifit.cpp:64-89 | every code of 6 or more is P000 |
| TriFit.PointMapCodec | src/trifit.cpp:37-89 | the code conversions invert each other on codes 0 to 6 |
| TriFit.GettersArePermutations | src/trifit.cpp:91-150 | each real map sends the three vertices to a permutation of 0, 1, 2; distinct maps give distinct permutations; P000 gives 255 three times |
| TriFit.GettersMatchNames | src/trifit.cpp:91-150 | the getters of each map spell out the digits of its name |
| TriFit.Serialize | src/trifit.cpp:193-204 | 15 bytes: three fractions, the map code, then the source's 16-bit id or 0xFFFF |
| TriFit.Parse | src/trifit.cpp:206-213 | fails exactly on fewer than 15 bytes; the fields are clamped to their ranges; the source is left unresolved as an id |
| TriFit.SerializeRoundTrip | src/trifit.cpp:193-213 | the map and source id come back exactly; the reals come back clamped, within half a grid step |
| TriFit.NegativeErrorReadsAsZero | src/trifit.cpp:193-198 | the default fit (line 35) has error -1; a negative error written with the clamp to [0, 255] reads back as 0 |
| Affine.InverseApply | affinetransform.cpp:83-93 | fails exactly when the determinant is not invertible |
| Affine.Inverse | affinetransform.cpp:99-112 | fails exactly when the determinant is not invertible |
| Affine.InverseAfterApply | affinetransform.cpp:76-93 | undoing a transform gives the point back |
| Affine.ApplyAfterInverse | affinetransform.cpp:76-93 | transforming an undone point gives it back |
| Affine.InverseRoundTrip | affinetransform.cpp:76-112 | the map `getInverse` builds is a two-sided inverse |
| Affine.InverseMatchesInverseApply | affinetransform.cpp:83-112 | `getInverse().transform(p)` equals `inverseTransform(p)` |
| Affine.FromTriangles | affinetransform.cpp:34-74 | a degenerate source triangle is an error, and so is one whose inverse orientation is below ZERO |
| Affine.FromTrianglesMapsVertices | affinetransform.cpp:34-74 | the constructed map sends source vertex i to target vertex getPoint_i(map) |
| MetaData.SetWidth | metadata.cpp:32-34 | replaces the width and nothing else |
| MetaData.SetHeight | metadata.cpp:40-42 | replaces the height and nothing else |
| MetaData.SetSourceFilename | metadata.cpp:48-50 | replaces the name and nothing else |
| MetaData.Serialize | metadata.cpp:52-56 | width and height as big-endian int32, then the name as a length-prefixed string |
| MetaData.Parse | metadata.cpp:13-17 | fails on fewer than ten bytes; otherwise consumes at least ten |
| MetaData.SerializeRoundTrip | metadata.cpp:13-17 | reading what `serialize` (metadata.cpp:53) wrote: reading back gives the same header, with the name cut to 0xFFFF bytes when it is longer |
| MetaData.SerializeInjective | metadata.cpp:52-56 | headers whose names fit have distinct encodings |
| Gd.Alpha | src/gd.h:37 | the alpha lane lies in [0, 127] |
| Gd.LanesRoundTrip | src/gd.h:37-46 | packing four lanes and reading each back gives the lane; repacking a non-negative colour gives the colour |
| Gd.Offset | src/gd.h:60-71 | a pixel's four bytes lie inside the buffer, at a multiple of four |
| Gd.OffsetsDisjoint | src/gd.h:60-71 | distinct pixels occupy disjoint four-byte slots |
| Gd.TrueColorAlpha | src/gd.h:42-45 | with alpha in [0, 127] the packed colour is non-negative; Gd.LanesRoundTrip reads each lane back |
| Gd.CreateTrueColor | src/gd.h:76-82 | the given dimensions and a buffer of four bytes per pixel |
| Gd.SetPixel | src/gd.h:65-71 | a valid image of the same size; Gd.SetPixelBytes and Gd.GetSetPixel state what it holds |
| Gd.SetPixelBytes | src/gd.h:65-71 | writes alpha, red, green and blue into the pixel's slot and leaves every other byte unchanged |
| Gd.GetPixelAsWrittenIsZero | src/gd.h:60-63 | as written, the lanes are joined with `&`, so every read gives 0 |
| Gd.GetPixelAsWrittenLosesColor | src/gd.h:60-71 | as written, reading back an opaque white pixel does not give white |
| Gd.GetSetPixel | src/gd.h:60-71 | with the lanes joined by `\|`, a read gives back the non-negative colour just written there, and other pixels keep their colours |
| Gd.Clone | src/gd.h:84-93 | the copy equals the original |
| ImageUtils.Wrap | src/imageutils.cpp:71-85 | one step back into range: the coordinate modulo the dimension; unchanged when already in range |
| ImageUtils.WrappedGetPixelIsModular | src/imageutils.cpp:71-85 | the wrapped read is the read at the coordinates reduced modulo the dimensions |
| ImageUtils.WrappedGetPixelPeriodic | src/imageutils.cpp:71-85 | inside the image nothing changes, and one width or height away reads the same pixel |
| ImageUtils.GetGreyIsMean | src/imageutils.cpp:87-92 | the grey value is the floor of the mean of red, green and blue, so it lies between the smallest and the largest of them |
| ImageUtils.ReadAsWritten | src/imageutils.cpp:126-141 | every read of a pixel in `imageutils.cpp` goes through `gdImageGetPixel` and, as written, yields 0 |
| ImageUtils.WrappedGetPixelAsWritten | src/imageutils.cpp:71-85 | as written, every wrapped read is 0, an opaque colour |
| ImageUtils.SetPixel | src/imageutils.cpp:122-143 | a valid image of the same size; ImageUtils.SetPixelEffect states the pixel it writes |
| ImageUtils.SetPixelAsWrittenEffect | src/imageutils.cpp:122-143 | as written: the pixel gets the alpha and the value in its channel; grey sets all three lanes, as the corrected `setPixel` does; a colour channel sets the other two lanes to 0; other pixels are unchanged |
| ImageUtils.SetPixelEffect | src/imageutils.cpp:122-143 | the pixel gets the alpha and reads the value in the channel; grey sets all three lanes; a colour channel keeps the other two; other pixels are unchanged |
| ImageUtils.BoundColor | src/imageutils.cpp:145-168 | clamps into [0, 255] |
| ImageUtils.ChannelNamesDistinct | src/imageutils.cpp:263-279 | each channel has its own name |
| ImageUtils.Laplace | src/imageutils.cpp:50-61 | the kernel is the sum of the eight neighbours less eight times the centre, within ±8·255 |
| ImageUtils.Window | src/imageutils.cpp:153-162 | the window has nine samples |
| ImageUtils.WindowAsWritten | src/imageutils.cpp:153-162 | as written, all nine samples of every window are 0 |
| ImageUtils.EdgeDetectLaplaceAsWritten | src/imageutils.cpp:145-168 | as written, the result has the image's size and every pixel is 0 |
| ImageUtils.EdgeDetectLaplace | src/imageutils.cpp:145-168 | `edgeDetectLaplace` (line 67) is `edgeDetect` with `_laplace`: a new image of the same size whose every pixel is the opaque grey of the clamped Laplacian of its wrapped 3×3 window |
| ImageUtils.PaintedEverywhere | src/imageutils.cpp:145-179 | after the column-major loops, every pixel reads the colour of the one write that visited it |
| ImageUtils.ClearAlpha | src/imageutils.cpp:170-179 | every pixel becomes opaque and keeps its red, green and blue |
| ImageUtils.ClearAlphaAsWritten | src/imageutils.cpp:170-179 | as written, every pixel becomes 0: opaque black |
| ImageUtils.ColoredMeansNotOpaque | src/imageutils.cpp:217-245 | a neighbour is counted exactly when it is not opaque, and the count is the number of such neighbours |
| ImageUtils.CountColored | src/imageutils.cpp:224-236 | the loop's count and total are those of the non-opaque neighbours |
| ImageUtils.InterpolatePixel | src/imageutils.cpp:217-245 | succeeds exactly with at least two non-opaque neighbours; then writes their mean, opaque; otherwise leaves the image unchanged |
| ImageUtils.RingAsWritten | src/imageutils.cpp:218-227 | as written, all eight neighbours read 0 |
| ImageUtils.NoneColored | src/imageutils.cpp:232-237 | eight opaque neighbours give no coloured one |
| ImageUtils.InterpolatePixelAsWritten | src/imageutils.cpp:217-245 | as written, it never succeeds and leaves the image unchanged |
| ImageUtils.MeanWithinRange | src/imageutils.cpp:217-245 | the mean is the floor of total / n and lies between the smallest and the largest value |
| ImageUtils.InterpolatedPixelIsMean | src/imageutils.cpp:237-245 | after interpolation the pixel is opaque and reads the mean in its channel |
| Triangle.Create | triangle.cpp:10-15 | a terminal triangle with id 0, the given vertices, and no links |
| Triangle.SetNextSibling | triangle.cpp:20-22 | links both ways and changes nothing else |
| Triangle.SetPrevSibling | triangle.cpp:27-29 | links both ways and changes nothing else |
| Triangle.SetNextIsSetPrev | triangle.cpp:20-29 | setting n after t and setting t before n give the same arena |
| Triangle.NextChildTarget | triangle.cpp:147-157 | a target found lies after the walk's start and inside the arena |
| Triangle.PrevChildTarget | triangle.cpp:158-167 | a target is found only from a previous sibling, and lies inside the arena |
| Triangle.NextChainIsPath | triangle.cpp:147-157 | the next chain follows next links from i to a triangle with none, strictly increasing |
| Triangle.PrevChainIsPath | triangle.cpp:158-167 | the previous chain follows previous links to a triangle with none, strictly decreasing |
| Triangle.FirstWithChildren | triangle.cpp:147-167 | none exactly when no element has children; otherwise the earliest element that has some |
| Triangle.NextChildTargetOnChain | triangle.cpp:147-157 | `assignNextChildSibling`'s walk finds the first child of the first next sibling that has children |
| Triangle.PrevChildTargetOnChain | triangle.cpp:158-167 | `assignPrevChildSibling`'s walk finds the last child of the first previous sibling that has children |
| Triangle.ChildPoints | triangle.cpp:124-127 | the vertex triples of four children |
| Triangle.Subdivide | triangle.cpp:109-145 | the arena grows by exactly four triangles |
| Triangle.SubdivideIsSteps | triangle.cpp:109-145 | `subdivide` equals its statements in order: add the children, chain them, join the two ends to the neighbours found, clear the terminal flag |
| Triangle.SubdivideChildren | triangle.cpp:109-145 | four fresh children with the split vertices and parent t, chained in order, with the ends joined to the walks' targets |
| Triangle.SubdivideFrame | triangle.cpp:109-145 | t gets the four children and stops being terminal; every old triangle keeps its vertices, parent, id and fit; only the two joined neighbours change links |
| Triangle.SubdivideKeepsLinked | triangle.cpp:109-167 | with no next target, the arena stays well linked |
| Triangle.NextWalkIsTarget | triangle.cpp:147-157 | the next walk run on any arena that agrees with a well-linked one from the walk's start onward finds the same target |
| Triangle.PrevWalkIsTarget | triangle.cpp:158-167 | the previous walk run on any arena that agrees with a well-linked one up to the walk's start finds the same target |
| Triangle.SubdivideWalksInOrder | triangle.cpp:138-145 | run where `subdivide` runs them, the next walk after the children are chained and the previous walk after the last child is joined, both walks find what they find on the entry arena |
| Triangle.BoundingBox | triangle.cpp:59-79 | the smallest box holding the three vertices: each vertex is inside, and each edge touches a vertex |
| Triangle.VerticesInBoundingBox | triangle.cpp:59-79 | each vertex passes the corrected rectangle test of its bounding box |
| Triangle.Area | triangle.cpp:81-85 | non-negative, and zero exactly for collinear vertices |
| Triangle.AreaSymmetric | triangle.cpp:81-85 | the area does not depend on the vertex order |
| Triangle.TestTriangles | triangletest.hpp:55-84 | the test triangles have the expected areas, below their bounding-box areas |
| DoubleImage.GetCorners | doubleimage.cpp:118-125 | four distinct corners of the unit square |
| DoubleImage.CornersSplitSquare | doubleimage.cpp:118-125 | the two root triangles each have area 1/2 and the unit square as bounding box |
| DoubleImage.InsideAndCorresponding | doubleimage.cpp:97-116 | a null list is an error; otherwise each grid sample appends the larger triangle's value and the smaller one's value at the mapped point |
| DoubleImage.OptimalFitAsWritten | doubleimage.cpp:34-60 | as written: a size mismatch is an error; the fit fails exactly when n²·Σx² = (Σx)² |
| DoubleImage.OptimalFitAsWrittenMissesLine | doubleimage.cpp:34-60 | as written, the fit of samples on y = x + 1 gives contrast 5/3, not 1 |
| DoubleImage.OptimalFit | doubleimage.cpp:34-60 | the corrected fit fails exactly when the domain has no spread |
| DoubleImage.OptimalFitIsResidual | doubleimage.cpp:34-60 | the fit's error is the sum of squared residuals of its own line |
| DoubleImage.OptimalFitMinimises | doubleimage.cpp:34-60 | no line has a smaller sum of squared residuals than the fitted one |
| DoubleImage.OptimalFitRecoversLine | doubleimage.cpp:34-60 | samples lying on a line give that line back with error 0 |
| DoubleImage.GetOptimalFit | doubleimage.cpp:34-60 | a failed affine map is passed on; otherwise the fit of the larger triangle's samples to the smaller one's |
| DoubleImage.BestMatch | doubleimage.cpp:127-146 | the loop computes the fold over every tried (candidate, map) pair |
| DoubleImage.TriedMembers | doubleimage.cpp:127-146 | a pair is tried exactly when its candidate is listed, within four times the area, and the map is real |
| DoubleImage.PickFirstMinimum | doubleimage.cpp:127-146 | with non-negative errors, the search returns the first pair of smallest error |
| DoubleImage.BestMatchOutcome | doubleimage.cpp:127-146 | null with error -1 exactly when every candidate is too large; otherwise a tried candidate with its own fit |
| TriangleTree.New | src/triangletree.cpp:35-43 | a well-formed tree; TriangleTree.NewTree states its roots and queue |
| TriangleTree.NewTree | src/triangletree.cpp:35-43 | two linked roots with area 1/2 each, both queued, no id assigned yet, quad method, the tree invariant |
| TriangleTree.GetAllSiblings | src/triangletree.cpp:168-187 | every triangle listed is in the arena; TriangleTree.LevelsMembers states which |
| TriangleTree.GetAllAbove | src/triangletree.cpp:150-157 | every triangle listed is in the arena |
| TriangleTree.GetAllBelow | src/triangletree.cpp:159-166 | every triangle listed is in the arena |
| TriangleTree.AncestorsIsPath | src/triangletree.cpp:150-157 | the ancestors follow parent links up to a root, strictly decreasing |
| TriangleTree.AboveByAncestors | src/triangletree.cpp:150-157 | `getAllAbove` is the sibling levels of the ancestors in order; it is empty exactly for a root, and otherwise starts at the parent |
| TriangleTree.BelowByFirstDescendants | src/triangletree.cpp:159-166 | `getAllBelow` is the sibling levels of the first-child line; it is empty exactly for a childless triangle |
| TriangleTree.LevelsMembers | src/triangletree.cpp:168-187 | a triangle is in the levels of s exactly when it is some element of s or on that element's next or previous chain |
| TriangleTree.QuadSplit | src/triangletree.cpp:123-148 | the arena grows by exactly four triangles |
| TriangleTree.SubdivideIn | src/triangletree.cpp:123-148 | the four children are queued at the back, and old triangles keep their ids, fits and vertices |
| TriangleTree.Popped | src/triangletree.cpp:87-96 | the front leaves the queue and gets the next id; the counter grows by one; the links are unchanged |
| TriangleTree.Place | src/triangletree.cpp:97-121 | the arena does not shrink, the triangle keeps its id, and the counter, channel and method are unchanged |
| TriangleTree.AssignOne | src/triangletree.cpp:87-121 | null exactly on an empty queue, and then nothing changes; otherwise the former front, now carrying the next id |
| TriangleTree.AssignOneStep | src/triangletree.cpp:87-121 | a root is always subdivided; another triangle keeps its best match exactly when the error, point-count or area condition holds with a non-negative error, and is subdivided otherwise |
| TriangleTree.NeverFull | src/triangletree.cpp:114 | under the invariant the arena never holds exactly 0xFFFF triangles, so that guard of `assignOne` never fires |
| TriangleTree.CapOvershoots | src/triangletree.cpp:113-117 | at 0xFFFF - 1 triangles a step keeps a fit or grows the arena to 0xFFFF + 3 |
| TriangleTree.PlaceCapped | src/triangletree.cpp:97-121 | with the intended cap, a step on a triangle with candidates above it never takes the arena past 0xFFFF |
| TriangleTree.AssignOneKeepsInv | src/triangletree.cpp:87-148 | one step keeps the tree invariant: queue = the unassigned suffix, ids k mod 65536 before it, no children after it |
| TriangleTree.AssignAll | src/fractalimage.cpp:121-137 | the encoder loop keeps the invariant and only grows; once the queue is empty every triangle k carries id k mod 65536 |
| TriangleTree.AssignAllStops | src/fractalimage.cpp:121-137 | with an empty queue the loop changes nothing |
| TriangleTree.Serialize | src/triangletree.cpp:193-214 | `TREE`, the 16-bit last id, then the records in root-sibling preorder |
| TriangleTree.Preorder | src/triangletree.cpp:193-201 | starts at i and lists only triangles from i to the end of the arena |
| TriangleTree.RootOrder | src/triangletree.cpp:203-208 | starts at i and lists only triangles from i to the end of the arena |
| TriangleTree.ReadRecords | src/triangletree.cpp:225-228 | reading keeps the number of slots |
| TriangleTree.Unserialize | src/triangletree.cpp:216-234 | a bad magic is an error; on success there are as many slots as the 16-bit count says, and every one is filled (a slot no record named is the null pointer `resolveDependencies` would dereference, an `Unresolved` error) |
| TriangleTree.ReadWritten | src/triangletree.cpp:193-234 | for any record codec whose reader consumes exactly one written record and gives back a record with the written id (`Rereads`): slot k ends up holding the record read back from the last triangle written with id k, and the rest of the stream is left |
| TriangleTree.ReloadedAtIds | src/triangletree.cpp:216-232 | when the written ids are pairwise distinct, each written triangle's record, as read back, sits in the slot of its own id |
| TriangleTree.PlacedDistinct | src/triangletree.cpp:225-228 | with distinct ids, each record lands in its own slot and untouched slots keep their contents |
| TriangleTree.SerializeRoundTrip | src/triangletree.cpp:193-234 | for a codec meeting `Rereads`, when every triangle is visited once with an id below the count: reading a written tree gives the slots `Reloaded` (each record read back at its id) if they are all filled, and `Unresolved` otherwise |
| TriangleTree.FilledIffDistinct | src/triangletree.cpp:216-232 | the slots read back from a written tree are all filled exactly when no two written triangles share an id |
| TriangleTree.PlacedFills | src/triangletree.cpp:225-228 | after storing records at their ids, a slot is filled exactly when it was filled before or some record carries its id |
| TriangleTree.PlacedCover | src/triangletree.cpp:224-232 | storing as many records as there are empty slots fills every slot exactly when the records' ids are pairwise distinct |
| TriangleTree.CoverIffDistinct | src/triangletree.cpp:224-232 | n ids below n cover every slot exactly when they are pairwise distinct |
| TriangleTree.DistinctCard | src/triangletree.cpp:224-232 | a sequence of ids holds as many distinct values as elements exactly when none repeats |
| TriangleTree.FitRecordRereads | src/trifit.cpp:193-213 | a concrete record codec (the id as an unsigned short, then the fit as `TriFit::serialize` writes it) meets `Rereads`: it reads back what it wrote, with the fit as `TriFit`'s reader returns it |
| TriangleTree.FitRecordLoses | src/trifit.cpp:193-213 | that codec is not an exact inverse: a fit with negative error reads back with error 0 |
| TriFit.ParsePrefix | src/trifit.cpp:206-213 | the fit reader consumes exactly its 15 bytes: reading a record followed by more bytes gives the same fit and leaves the extra bytes |
| IoUtils.DecodeU16Prefix | ioutils.cpp:65-70 | reading an unsigned short consumes exactly two bytes, whatever follows |
| IoUtils.DecodeFractionPrefix | ioutils.cpp:47-50 | reading a fraction consumes exactly four bytes, whatever follows |
| FractalImage.ChannelsOf | src/fractalimage.cpp:45-55 | one grey channel exactly for greyscale, otherwise red, green, blue |
| FractalImage.New | src/fractalimage.cpp:61-75 | the type is kept and there is one tree per channel of the type |
| FractalImage.NewFractal | src/fractalimage.cpp:61-75 | the header holds width and height; one fresh tree per channel, each satisfying the tree invariant; 2 triangles per channel |
| FractalImage.GetSize | src/fractalimage.cpp:144-150 | at least two triangles per channel |
| FractalImage.SetSubdivisionMethod | src/fractalimage.cpp:162-166 | every channel gets the method and nothing else changes |
| FractalImage.SetSubdivisionMethodLastWins | src/fractalimage.cpp:162-166 | of two settings the last wins, and setting the current method changes nothing |
| FractalImage.Encode | src/fractalimage.cpp:121-137 | each channel becomes the encoder loop's result; the invariant is kept and the size does not shrink |
| FractalImage.SizeGrows | src/fractalimage.cpp:144-150 | the size is monotone in each tree's size |
| FractalImage.Serialize | src/fractalimage.cpp:89-106 | the magic `FRACTAL`, the header, the type byte, then every channel's tree |
| FractalImage.Parse | src/fractalimage.cpp:30-59 | a bad magic is an error; a good file yields one tree per channel of its type, labelled in order |
| FractalImage.ReadTrees | src/fractalimage.cpp:47-55 | one tree per requested channel, labelled in order |
| FractalImage.TypeByteDecides | src/fractalimage.cpp:45-55 | type byte 0 means greyscale, and every other value means colour |
| FractalImage.SerializeRoundTrip | src/fractalimage.cpp:30-59 | reading what `serialize` (src/fractalimage.cpp:88) wrote, for a record codec meeting `Rereads`: when every channel's slots come back filled, reading gives back the header (name cut to 0xFFFF bytes), the type and each channel's records read back at their ids; otherwise `Unresolved` |
| FractalImage.ParseFraming | src/fractalimage.cpp:30-59 | for any bytes after the type byte: the header comes back (name cut to 0xFFFF bytes) with the type, and the trees are whatever reading the type's channels from those bytes gives, or its error |

## Left out

- Streams, files, the command line, logging and debug output (`main.cpp`, `output.h`). A stream is a byte sequence, and `outputDebug` branches only print.
- Floating point: `double` is `real`, so `serializeDouble` and `unserializeDouble` are not modelled. Rounding is modelled only where the source calls `round` or `floor` explicitly. A division by zero, which gives an infinity or NaN in `double` and throws nothing, is an `Undefined` error in two places: `Affine.FromTriangles` on a degenerate source triangle (orientation 0), and `DoubleImage.FitAsWrittenOf` on a zero denominator or empty sample.
- Gd.CreateTrueColor: the source leaves the pixel buffer uninitialised (src/gd.h:76-82); the model fills it with zeros. No proved property depends on those bytes, because every caller paints every pixel (`ImageUtils.PaintedEverywhere`).
- DoubleImage.BestMatch: the fit oracle is total, and so is `TriangleTree.Oracles.bestMatch`. In the source the fit builds an `AffineTransform` (doubleimage.cpp:104, reached from `getBestMatch` at doubleimage.cpp:138), whose constructor throws when the reciprocal of the determinant is below `ZERO` in magnitude (affinetransform.cpp:52-57). Nothing catches that exception, so `assignOne` and `encode` abort. `Affine.FromTriangles` models the check as a `NotInvertible` error, passed on by `DoubleImage.GetOptimalFit`, but `BestMatch` does not pass it on.
- `Vector2D` and `Triangle::pointInside` (same-side and barycentric tests). Sampling the pixels inside a triangle is a parameter: `DoubleImage.InsideAndCorresponding` takes a grid of points and a value function. `getPointsInside` and `getBestMatch`'s fit are oracles of `TriangleTree.Oracles`.
- `valueAt`, `loadImage`, `blankCanvas` (it uses a random seed), `_sobel`, `interpolateErrors` and rendering (`renderTo`, `decode`). These are the decoder and I/O sides, not the encoder core.
- TriangleTree.AssignOne: requires the quad method. The centroid method (`subdivideBarycentric`) divides at a computed interior point and is not modelled. `FractalImage.Encode` inherits this requirement through the tree invariant.
- TriangleTree.AssignAll: runs for at most `fuel` steps. Termination of the source's loop depends on the error oracle and the area threshold, so the model bounds the steps instead of proving termination. `FractalImage.Encode` passes the same bound to each channel.
- TriangleTree.SerializeRoundTrip: holds on the condition that the root-sibling preorder visits each triangle exactly once, with ids below the stored count (`Rereadable`). That encoded trees always satisfy this is not proved. `FractalImage.SerializeRoundTrip` has the same condition per channel.
- The per-triangle record codec (`Triangle::serialize` and the stream constructor) is a parameter: `write` and `read`, related by `TriangleTree.Rereads` (the reader consumes exactly the written record and returns a record with its id; `back` says what else survives). Their definitions (declared in triangle.h) are not part of this model; `TriangleTree.FitRecord` is one concrete codec that meets the hypothesis. Trees come back as slots indexed by id.
- `resolveDependencies` (declared in triangle.h; it links parents, siblings and children from the ids a record names) is not part of this model. Only its dereference of a null slot is modelled, as the `Unresolved` error.
- FractalImage.SerializeRoundTrip: holds when every channel's tree satisfies `Rereadable`: its root-sibling preorder visits each triangle once, with ids below the stored count. That encoded trees always satisfy this is not proved.
- IoUtils.DecodeString: the `Truncated` error is the model's. The source never checks the stream (ioutils.cpp:91-96) and fills `char result[len]` with whatever the read leaves.
- IoUtils.DecodeU16: the `Truncated` error on fewer than two bytes is the model's; the source does not check the stream (ioutils.cpp:65-70).
- IoUtils.DecodeI32: the `Truncated` error on fewer than four bytes is the model's; the source does not check the stream (ioutils.cpp:81-89).
- IoUtils.DecodeFraction: the `Truncated` error on fewer than four bytes is the model's, inherited from `DecodeI32`. The parsers built on these readers (`Point2D.Parse`, `TriFit.Parse`, `MetaData.Parse`, the tree and image readers) pass it on.
- ImageUtils.SetPixelEffect: stated with the `|` reader `Gd.GetPixel` (see Findings). As written, a colour channel sets the other two lanes to 0 (`ImageUtils.SetPixelAsWrittenEffect`).
- ImageUtils.ClearAlpha: stated with the `|` reader. As written, every pixel becomes opaque black (`ImageUtils.ClearAlphaAsWritten`).
- ImageUtils.InterpolatePixel: stated with the `|` reader. As written, every neighbour reads opaque, so it never succeeds (`ImageUtils.InterpolatePixelAsWritten`).
- ImageUtils.InterpolatedPixelIsMean: stated with the `|` reader. As written, no pixel is ever interpolated (`ImageUtils.InterpolatePixelAsWritten`).
- ImageUtils.EdgeDetectLaplace: stated with the `|` reader. As written, every window reads 0, so every pixel of the result is 0 (`ImageUtils.EdgeDetectLaplaceAsWritten`).
- TriangleTree.Unserialize: an id at or beyond the count is a `BadId` error. The source stores it out of bounds. A slot no record filled is an `Unresolved` error; the source dereferences the null pointer there (src/triangletree.cpp:230-232).
- `lastId` is the unbounded counter `numAssigned`, and `LastId` is its value modulo 65536, as the `unsigned short` wraps.
- The encoder queue holds indices, so the source's check for a null front cannot fire and is not modelled.
- DoubleImage.GetOptimalFit: returns the corrected least-squares fit (see Findings), not the formulas as written.
- `generateEdges`, `hasEdges` and the edge-weighted subdivision ratios: the split ratios come from the `bestDivide` oracle.
- Copy constructors, destructors and `str()` methods have nothing to model beyond value semantics.

## Findings

| source | as written | input that shows it | evidently intended | confidence | as-written member | corrected member |
|---|---|---|---|---|---|---|
| src/gd.h:60-63 | `gdImageGetPixel` joins the four shifted lanes with `&` | any pixel: the alpha and red lanes share no bit, so every read is 0 | join the lanes with `\|` so that a read returns the stored colour | high; not executed | Gd.GetPixelAsWrittenIsZero | Gd.GetSetPixel |
| doubleimage.cpp:34-60 | the contrast and error formulas use n² where least squares has n | samples (0, 1) and (1, 2), which lie on y = x + 1: contrast 5/3, brightness 1/3 | the least-squares line: contrast 1, brightness 1, error 0 | medium; not executed | DoubleImage.OptimalFitAsWrittenMissesLine | DoubleImage.OptimalFitRecoversLine |
| rectangle.cpp:34-41 | `pointInside`'s bottom-edge test compares the point's x, not its y, with y + h | the centre (10.5, 0.5) of the unit square at (10, 0) is rejected | x within [left, right] and y within [top, bottom] | high; not executed | Rectangle.PointInsideRejectsCentre | Rectangle.PointInsideCorrectedMeansInside |
| src/imageutils.cpp:122-143 | `setPixel` on a colour channel takes the other two lanes from `gdImageGetPixel`, which reads 0 | setting red to 255 in a 1×1 opaque white pixel, gdTrueColorAlpha(255, 255, 255, 0), gives red, not white | keep the other two lanes of the current colour | high; not executed | ImageUtils.SetPixelAsWrittenEffect | ImageUtils.SetPixelEffect |
| src/imageutils.cpp:145-168 | `edgeDetect` samples its windows through `gdImageGetPixel` | any image, such as a 1×1 opaque white one: every pixel of the result is 0 | each pixel the clamped Laplacian of its window | high; not executed | ImageUtils.EdgeDetectLaplaceAsWritten | ImageUtils.EdgeDetectLaplace |
| src/imageutils.cpp:170-179 | `clearAlpha` rebuilds each pixel from a `gdImageGetPixel` read | a 1×1 opaque white image becomes opaque black | every pixel opaque with its red, green and blue kept | high; not executed | ImageUtils.ClearAlphaAsWritten | ImageUtils.ClearAlpha |
| src/imageutils.cpp:217-245 | `interpolatePixel` tests the alpha of neighbours read through `gdImageGetPixel` | an image of transparent pixels: every neighbour reads opaque, so nothing is interpolated | fill a pixel with the mean of its non-opaque neighbours when there are at least two | high; not executed | ImageUtils.InterpolatePixelAsWritten | ImageUtils.InterpolatePixel |
| src/triangletree.cpp:113-114 | the cap compares the arena's size with 0xFFFF, but quad splitting keeps the size at 2 modulo 4 and 0xFFFF is 3 modulo 4, so the cap never fires | a tree of 65534 triangles whose next triangle is subdivided grows to 65538 triangles, and ids past 65535 wrap | stop subdividing before the arena passes 0xFFFF, so that every id fits its `unsigned short` | medium; not executed | TriangleTree.NeverFull | TriangleTree.PlaceCapped |
