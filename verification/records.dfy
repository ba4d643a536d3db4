/**
 * The five map record layouts the loader reads out of lumps. Every field is
 * a little-endian signed 16-bit integer or a raw 8-byte texture name, and the
 * records are packed back to back with no padding.
 */
module Records {
  import opened Bytes
  import opened Seqs

  const THING_SIZE: nat := 10
  const LINEDEF_SIZE: nat := 14
  const SIDEDEF_SIZE: nat := 30
  const VERTEX_SIZE: nat := 4
  const SECTOR_SIZE: nat := 26

  /** A texture field: 8 raw bytes, not necessarily NUL-terminated. */
  type Texture = s: seq<byte> | |s| == 8 witness [0, 0, 0, 0, 0, 0, 0, 0]

  datatype Thing = Thing(x: int16, y: int16, angle: int16, doomedNum: int16, flags: int16)

  datatype Linedef = Linedef(
    vertexA: int16, vertexB: int16, flags: int16, action: int16, tag: int16,
    sideFront: int16, sideBack: int16)

  datatype Sidedef = Sidedef(
    xOffset: int16, yOffset: int16,
    upperTexture: Texture, lowerTexture: Texture, middleTexture: Texture,
    sectorId: int16)

  datatype Vertex = Vertex(x: int16, y: int16)

  datatype Sector = Sector(
    floorHeight: int16, ceilingHeight: int16,
    floorTexture: Texture, ceilingTexture: Texture,
    light: int16, special: int16, tag: int16)

  /** The 16-bit field at byte offset `at` of a record. */
  function Field16(bs: seq<byte>, at: nat): int16
    requires at + 2 <= |bs|
  {
    DecodeInt16(bs[at..at + 2])
  }

  // ---------------------------------------------------------------------
  // One record
  // ---------------------------------------------------------------------

  function DecodeThing(bs: seq<byte>): Thing
    requires |bs| == THING_SIZE
  {
    Thing(Field16(bs, 0), Field16(bs, 2), Field16(bs, 4), Field16(bs, 6), Field16(bs, 8))
  }

  /** A thing as stored in a THINGS lump; reading it back gives the thing. */
  function EncodeThing(t: Thing): (bs: seq<byte>)
    ensures |bs| == THING_SIZE
    ensures DecodeThing(bs) == t
  {
    var bs := EncodeInt16(t.x) + EncodeInt16(t.y) + EncodeInt16(t.angle) + EncodeInt16(t.doomedNum)
      + EncodeInt16(t.flags);
    assert bs[0..2] == EncodeInt16(t.x) && bs[2..4] == EncodeInt16(t.y) && bs[4..6] == EncodeInt16(t.angle);
    assert bs[6..8] == EncodeInt16(t.doomedNum) && bs[8..10] == EncodeInt16(t.flags);
    bs
  }

  function DecodeLinedef(bs: seq<byte>): Linedef
    requires |bs| == LINEDEF_SIZE
  {
    Linedef(Field16(bs, 0), Field16(bs, 2), Field16(bs, 4), Field16(bs, 6), Field16(bs, 8),
      Field16(bs, 10), Field16(bs, 12))
  }

  /** A linedef as stored in a LINEDEFS lump; reading it back gives the linedef. */
  function EncodeLinedef(l: Linedef): (bs: seq<byte>)
    ensures |bs| == LINEDEF_SIZE
    ensures DecodeLinedef(bs) == l
  {
    var bs := EncodeInt16(l.vertexA) + EncodeInt16(l.vertexB) + EncodeInt16(l.flags) + EncodeInt16(l.action)
      + EncodeInt16(l.tag) + EncodeInt16(l.sideFront) + EncodeInt16(l.sideBack);
    assert bs[0..2] == EncodeInt16(l.vertexA) && bs[2..4] == EncodeInt16(l.vertexB);
    assert bs[4..6] == EncodeInt16(l.flags) && bs[6..8] == EncodeInt16(l.action);
    assert bs[8..10] == EncodeInt16(l.tag) && bs[10..12] == EncodeInt16(l.sideFront);
    assert bs[12..14] == EncodeInt16(l.sideBack);
    bs
  }

  function DecodeSidedef(bs: seq<byte>): Sidedef
    requires |bs| == SIDEDEF_SIZE
  {
    Sidedef(Field16(bs, 0), Field16(bs, 2), bs[4..12], bs[12..20], bs[20..28], Field16(bs, 28))
  }

  /** A sidedef as stored in a SIDEDEFS lump; reading it back gives the sidedef. */
  function EncodeSidedef(s: Sidedef): (bs: seq<byte>)
    ensures |bs| == SIDEDEF_SIZE
    ensures DecodeSidedef(bs) == s
  {
    var bs := EncodeInt16(s.xOffset) + EncodeInt16(s.yOffset) + s.upperTexture + s.lowerTexture
      + s.middleTexture + EncodeInt16(s.sectorId);
    assert bs[0..2] == EncodeInt16(s.xOffset) && bs[2..4] == EncodeInt16(s.yOffset);
    assert bs[4..12] == s.upperTexture && bs[12..20] == s.lowerTexture && bs[20..28] == s.middleTexture;
    assert bs[28..30] == EncodeInt16(s.sectorId);
    bs
  }

  function DecodeVertex(bs: seq<byte>): Vertex
    requires |bs| == VERTEX_SIZE
  {
    Vertex(Field16(bs, 0), Field16(bs, 2))
  }

  /** A vertex as stored in a VERTEXES lump; reading it back gives the vertex. */
  function EncodeVertex(v: Vertex): (bs: seq<byte>)
    ensures |bs| == VERTEX_SIZE
    ensures DecodeVertex(bs) == v
  {
    var bs := EncodeInt16(v.x) + EncodeInt16(v.y);
    assert bs[0..2] == EncodeInt16(v.x) && bs[2..4] == EncodeInt16(v.y);
    bs
  }

  function DecodeSector(bs: seq<byte>): Sector
    requires |bs| == SECTOR_SIZE
  {
    Sector(Field16(bs, 0), Field16(bs, 2), bs[4..12], bs[12..20], Field16(bs, 20), Field16(bs, 22),
      Field16(bs, 24))
  }

  /** A sector as stored in a SECTORS lump; reading it back gives the sector. */
  function EncodeSector(s: Sector): (bs: seq<byte>)
    ensures |bs| == SECTOR_SIZE
    ensures DecodeSector(bs) == s
  {
    var bs := EncodeInt16(s.floorHeight) + EncodeInt16(s.ceilingHeight) + s.floorTexture + s.ceilingTexture
      + EncodeInt16(s.light) + EncodeInt16(s.special) + EncodeInt16(s.tag);
    assert bs[0..2] == EncodeInt16(s.floorHeight) && bs[2..4] == EncodeInt16(s.ceilingHeight);
    assert bs[4..12] == s.floorTexture && bs[12..20] == s.ceilingTexture;
    assert bs[20..22] == EncodeInt16(s.light) && bs[22..24] == EncodeInt16(s.special);
    assert bs[24..26] == EncodeInt16(s.tag);
    bs
  }

  // ---------------------------------------------------------------------
  // A vector's bytes as its records
  // ---------------------------------------------------------------------

  /** The records a `std::vector<map_thing_s>` holding these bytes contains. */
  function DecodeThings(img: seq<byte>): (r: seq<Thing>)
    requires |img| % THING_SIZE == 0
    ensures |r| == |img| / THING_SIZE
  {
    seq(|img| / THING_SIZE, k requires 0 <= k < |img| / THING_SIZE =>
      DecodeThing(img[THING_SIZE * k..THING_SIZE * k + THING_SIZE]))
  }

  function DecodeLinedefs(img: seq<byte>): (r: seq<Linedef>)
    requires |img| % LINEDEF_SIZE == 0
    ensures |r| == |img| / LINEDEF_SIZE
  {
    seq(|img| / LINEDEF_SIZE, k requires 0 <= k < |img| / LINEDEF_SIZE =>
      DecodeLinedef(img[LINEDEF_SIZE * k..LINEDEF_SIZE * k + LINEDEF_SIZE]))
  }

  function DecodeSidedefs(img: seq<byte>): (r: seq<Sidedef>)
    requires |img| % SIDEDEF_SIZE == 0
    ensures |r| == |img| / SIDEDEF_SIZE
  {
    seq(|img| / SIDEDEF_SIZE, k requires 0 <= k < |img| / SIDEDEF_SIZE =>
      DecodeSidedef(img[SIDEDEF_SIZE * k..SIDEDEF_SIZE * k + SIDEDEF_SIZE]))
  }

  function DecodeVertexes(img: seq<byte>): (r: seq<Vertex>)
    requires |img| % VERTEX_SIZE == 0
    ensures |r| == |img| / VERTEX_SIZE
  {
    seq(|img| / VERTEX_SIZE, k requires 0 <= k < |img| / VERTEX_SIZE =>
      DecodeVertex(img[VERTEX_SIZE * k..VERTEX_SIZE * k + VERTEX_SIZE]))
  }

  function DecodeSectors(img: seq<byte>): (r: seq<Sector>)
    requires |img| % SECTOR_SIZE == 0
    ensures |r| == |img| / SECTOR_SIZE
  {
    seq(|img| / SECTOR_SIZE, k requires 0 <= k < |img| / SECTOR_SIZE =>
      DecodeSector(img[SECTOR_SIZE * k..SECTOR_SIZE * k + SECTOR_SIZE]))
  }

  /**
   * Records written back to back with no padding, as a lump holds them; `enc`
   * lays one record out in `size` bytes.
   */
  function Pack<T(!new)>(xs: seq<T>, enc: T -> seq<byte>, size: nat): (img: seq<byte>)
    requires forall x :: |enc(x)| == size
    ensures |img| == size * |xs|
  {
    if xs == [] then [] else enc(xs[0]) + Pack(xs[1..], enc, size)
  }

  /** The k-th `size`-byte slice of a packed image is the k-th record's layout. */
  lemma {:induction false} PackRecord<T(!new)>(xs: seq<T>, enc: T -> seq<byte>, size: nat, k: nat)
    requires forall x :: |enc(x)| == size
    requires k < |xs|
    ensures Pack(xs, enc, size)[size * k..size * k + size] == enc(xs[k])
  {
    var first := enc(xs[0]);
    var rest := Pack(xs[1..], enc, size);
    assert Pack(xs, enc, size) == first + rest;
    if k > 0 {
      PackRecord(xs[1..], enc, size, k - 1);
      var lo := size * (k - 1);
      assert size * k == |first| + lo;
      ConcatSliceRight(first, rest, lo, lo + size);
    }
  }

  function EncodeThings(ts: seq<Thing>): (img: seq<byte>)
    ensures |img| == THING_SIZE * |ts|
  {
    Pack(ts, EncodeThing, THING_SIZE)
  }

  function EncodeLinedefs(ls: seq<Linedef>): (img: seq<byte>)
    ensures |img| == LINEDEF_SIZE * |ls|
  {
    Pack(ls, EncodeLinedef, LINEDEF_SIZE)
  }

  function EncodeSidedefs(ss: seq<Sidedef>): (img: seq<byte>)
    ensures |img| == SIDEDEF_SIZE * |ss|
  {
    Pack(ss, EncodeSidedef, SIDEDEF_SIZE)
  }

  function EncodeVertexes(vs: seq<Vertex>): (img: seq<byte>)
    ensures |img| == VERTEX_SIZE * |vs|
  {
    Pack(vs, EncodeVertex, VERTEX_SIZE)
  }

  function EncodeSectors(ss: seq<Sector>): (img: seq<byte>)
    ensures |img| == SECTOR_SIZE * |ss|
  {
    Pack(ss, EncodeSector, SECTOR_SIZE)
  }

  /** A THINGS lump written from a list of things reads back as the same list. */
  lemma ThingsRoundTrip(ts: seq<Thing>)
    ensures DecodeThings(EncodeThings(ts)) == ts
  {
    var back := DecodeThings(EncodeThings(ts));
    forall k | 0 <= k < |ts|
      ensures back[k] == ts[k]
    {
      PackRecord(ts, EncodeThing, THING_SIZE, k);
    }
  }

  /** A LINEDEFS lump written from a list of linedefs reads back as the same list. */
  lemma LinedefsRoundTrip(ls: seq<Linedef>)
    ensures DecodeLinedefs(EncodeLinedefs(ls)) == ls
  {
    var back := DecodeLinedefs(EncodeLinedefs(ls));
    forall k | 0 <= k < |ls|
      ensures back[k] == ls[k]
    {
      PackRecord(ls, EncodeLinedef, LINEDEF_SIZE, k);
    }
  }

  /** A SIDEDEFS lump written from a list of sidedefs reads back as the same list. */
  lemma SidedefsRoundTrip(ss: seq<Sidedef>)
    ensures DecodeSidedefs(EncodeSidedefs(ss)) == ss
  {
    var back := DecodeSidedefs(EncodeSidedefs(ss));
    forall k | 0 <= k < |ss|
      ensures back[k] == ss[k]
    {
      PackRecord(ss, EncodeSidedef, SIDEDEF_SIZE, k);
    }
  }

  /** A VERTEXES lump written from a list of vertices reads back as the same list. */
  lemma VertexesRoundTrip(vs: seq<Vertex>)
    ensures DecodeVertexes(EncodeVertexes(vs)) == vs
  {
    var back := DecodeVertexes(EncodeVertexes(vs));
    forall k | 0 <= k < |vs|
      ensures back[k] == vs[k]
    {
      PackRecord(vs, EncodeVertex, VERTEX_SIZE, k);
    }
  }

  /** A SECTORS lump written from a list of sectors reads back as the same list. */
  lemma SectorsRoundTrip(ss: seq<Sector>)
    ensures DecodeSectors(EncodeSectors(ss)) == ss
  {
    var back := DecodeSectors(EncodeSectors(ss));
    forall k | 0 <= k < |ss|
      ensures back[k] == ss[k]
    {
      PackRecord(ss, EncodeSector, SECTOR_SIZE, k);
    }
  }
}
