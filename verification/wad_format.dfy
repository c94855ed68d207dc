/**
  The on-disk records of a Doom WAD file: the 12-byte header, the 16-byte
  directory entries and the four level lumps the loader recognises. Each
  record is a sequence of little-endian `i16`/`i32` fields and 8-byte
  character arrays. Every field already sits at an offset that is a
  multiple of its own size (the `i32` fields of the header and the entries
  at multiples of 4, every `i16` at an even offset), so the ordinary C
  structs get no padding and the record sizes below follow from the field
  lists alone.
 */
module WadFormat {
  import opened Bytes

  const HEADER_SIZE: nat := 12
  const ENTRY_SIZE: nat := 16
  const VERTEX_SIZE: nat := 4
  const LINEDEF_SIZE: nat := 14
  const SIDEDEF_SIZE: nat := 30
  const SECTOR_SIZE: nat := 26

  /** A fixed 4-byte tag, such as the "IWAD"/"PWAD" identifier. */
  type Tag4 = s: seq<Byte> | |s| == 4 witness [0, 0, 0, 0]

  /** A fixed 8-byte name field; it need not be NUL-terminated. */
  type Name8 = s: seq<Byte> | |s| == 8 witness [0, 0, 0, 0, 0, 0, 0, 0]

  datatype WadHeader = WadHeader(identifier: Tag4, lumpCount: Int32, directoryOffset: Int32)

  datatype DirEntry = DirEntry(filePos: Int32, fileLen: Int32, name: Name8)

  datatype WadVertex = WadVertex(x: Int16, y: Int16)

  datatype WadLineDef = WadLineDef(
    startVertex: Int16, endVertex: Int16, flags: Int16, specialType: Int16,
    sectorTag: Int16, frontSideDef: Int16, backSideDef: Int16)

  datatype WadSideDef = WadSideDef(
    xTexOffset: Int16, yTexOffset: Int16,
    upperTex: Name8, lowerTex: Name8, middleTex: Name8,
    sector: Int16)

  datatype WadSector = WadSector(
    floorHeight: Int16, ceilingHeight: Int16,
    floorTex: Name8, ceilingTex: Name8,
    lightLevel: Int16, kind: Int16, tag: Int16)

  // ---------------------------------------------------------------------
  // Encoders: the byte layout of each record, field after field.

  function EncodeHeader(h: WadHeader): (s: seq<Byte>)
    ensures |s| == HEADER_SIZE
  {
    h.identifier + EncodeI32(h.lumpCount) + EncodeI32(h.directoryOffset)
  }

  function EncodeEntry(e: DirEntry): (s: seq<Byte>)
    ensures |s| == ENTRY_SIZE
  {
    EncodeI32(e.filePos) + EncodeI32(e.fileLen) + e.name
  }

  function EncodeVertex(v: WadVertex): (s: seq<Byte>)
    ensures |s| == VERTEX_SIZE
  {
    EncodeI16(v.x) + EncodeI16(v.y)
  }

  function EncodeLineDef(l: WadLineDef): (s: seq<Byte>)
    ensures |s| == LINEDEF_SIZE
  {
    EncodeI16(l.startVertex) + EncodeI16(l.endVertex) + EncodeI16(l.flags)
    + EncodeI16(l.specialType) + EncodeI16(l.sectorTag)
    + EncodeI16(l.frontSideDef) + EncodeI16(l.backSideDef)
  }

  function EncodeSideDef(d: WadSideDef): (s: seq<Byte>)
    ensures |s| == SIDEDEF_SIZE
  {
    EncodeI16(d.xTexOffset) + EncodeI16(d.yTexOffset)
    + d.upperTex + d.lowerTex + d.middleTex
    + EncodeI16(d.sector)
  }

  function EncodeSector(c: WadSector): (s: seq<Byte>)
    ensures |s| == SECTOR_SIZE
  {
    EncodeI16(c.floorHeight) + EncodeI16(c.ceilingHeight)
    + c.floorTex + c.ceilingTex
    + EncodeI16(c.lightLevel) + EncodeI16(c.kind) + EncodeI16(c.tag)
  }

  // ---------------------------------------------------------------------
  // Decoders: read each field from its offset in the record. Each one is
  // the exact inverse of the matching encoder on well-sized input.

  function DecodeHeaderFields(s: seq<Byte>): (h: WadHeader)
    requires |s| == HEADER_SIZE
    ensures EncodeHeader(h) == s
  {
    I32BytesRoundTrip(s[4..8]);
    I32BytesRoundTrip(s[8..12]);
    var h := WadHeader(s[0..4], DecodeI32(s[4..8]), DecodeI32(s[8..12]));
    assert EncodeHeader(h) == s[0..4] + s[4..8] + s[8..12];
    assert s == s[0..4] + s[4..8] + s[8..12];
    h
  }

  function DecodeEntry(s: seq<Byte>): (e: DirEntry)
    requires |s| == ENTRY_SIZE
    ensures EncodeEntry(e) == s
  {
    I32BytesRoundTrip(s[0..4]);
    I32BytesRoundTrip(s[4..8]);
    var e := DirEntry(DecodeI32(s[0..4]), DecodeI32(s[4..8]), s[8..16]);
    assert EncodeEntry(e) == s[0..4] + s[4..8] + s[8..16];
    assert s == s[0..4] + s[4..8] + s[8..16];
    e
  }

  function DecodeVertex(s: seq<Byte>): (v: WadVertex)
    requires |s| == VERTEX_SIZE
    ensures EncodeVertex(v) == s
  {
    I16BytesRoundTrip(s[0..2]);
    I16BytesRoundTrip(s[2..4]);
    assert s == s[0..2] + s[2..4];
    WadVertex(DecodeI16(s[0..2]), DecodeI16(s[2..4]))
  }

  function DecodeLineDef(s: seq<Byte>): (l: WadLineDef)
    requires |s| == LINEDEF_SIZE
    ensures EncodeLineDef(l) == s
  {
    I16BytesRoundTrip(s[0..2]);
    I16BytesRoundTrip(s[2..4]);
    I16BytesRoundTrip(s[4..6]);
    I16BytesRoundTrip(s[6..8]);
    I16BytesRoundTrip(s[8..10]);
    I16BytesRoundTrip(s[10..12]);
    I16BytesRoundTrip(s[12..14]);
    assert s == s[0..2] + s[2..4] + s[4..6] + s[6..8] + s[8..10] + s[10..12] + s[12..14];
    WadLineDef(
      DecodeI16(s[0..2]), DecodeI16(s[2..4]), DecodeI16(s[4..6]),
      DecodeI16(s[6..8]), DecodeI16(s[8..10]),
      DecodeI16(s[10..12]), DecodeI16(s[12..14]))
  }

  function DecodeSideDef(s: seq<Byte>): (d: WadSideDef)
    requires |s| == SIDEDEF_SIZE
    ensures EncodeSideDef(d) == s
  {
    I16BytesRoundTrip(s[0..2]);
    I16BytesRoundTrip(s[2..4]);
    I16BytesRoundTrip(s[28..30]);
    assert s == s[0..2] + s[2..4] + s[4..12] + s[12..20] + s[20..28] + s[28..30];
    WadSideDef(
      DecodeI16(s[0..2]), DecodeI16(s[2..4]),
      s[4..12], s[12..20], s[20..28],
      DecodeI16(s[28..30]))
  }

  function DecodeSector(s: seq<Byte>): (c: WadSector)
    requires |s| == SECTOR_SIZE
    ensures EncodeSector(c) == s
  {
    I16BytesRoundTrip(s[0..2]);
    I16BytesRoundTrip(s[2..4]);
    I16BytesRoundTrip(s[20..22]);
    I16BytesRoundTrip(s[22..24]);
    I16BytesRoundTrip(s[24..26]);
    assert s == s[0..2] + s[2..4] + s[4..12] + s[12..20] + s[20..22] + s[22..24] + s[24..26];
    WadSector(
      DecodeI16(s[0..2]), DecodeI16(s[2..4]),
      s[4..12], s[12..20],
      DecodeI16(s[20..22]), DecodeI16(s[22..24]), DecodeI16(s[24..26]))
  }

  // ---------------------------------------------------------------------
  // Round trips: the layouts have no overlapping and no missing fields.

  lemma HeaderRoundTrip(h: WadHeader)
    ensures DecodeHeaderFields(EncodeHeader(h)) == h
  {
    var s := EncodeHeader(h);
    assert s[0..4] == h.identifier;
    assert s[4..8] == EncodeI32(h.lumpCount);
    assert s[8..12] == EncodeI32(h.directoryOffset);
    I32RoundTrip(h.lumpCount);
    I32RoundTrip(h.directoryOffset);
  }

  lemma EntryRoundTrip(e: DirEntry)
    ensures DecodeEntry(EncodeEntry(e)) == e
  {
    var s := EncodeEntry(e);
    assert s[0..4] == EncodeI32(e.filePos);
    assert s[4..8] == EncodeI32(e.fileLen);
    assert s[8..16] == e.name;
    I32RoundTrip(e.filePos);
    I32RoundTrip(e.fileLen);
  }

  lemma VertexRoundTrip(v: WadVertex)
    ensures DecodeVertex(EncodeVertex(v)) == v
  {
    var s := EncodeVertex(v);
    assert s[0..2] == EncodeI16(v.x);
    assert s[2..4] == EncodeI16(v.y);
    I16RoundTrip(v.x);
    I16RoundTrip(v.y);
  }

  lemma LineDefRoundTrip(l: WadLineDef)
    ensures DecodeLineDef(EncodeLineDef(l)) == l
  {
    var s := EncodeLineDef(l);
    assert s[0..2] == EncodeI16(l.startVertex);
    assert s[2..4] == EncodeI16(l.endVertex);
    assert s[4..6] == EncodeI16(l.flags);
    assert s[6..8] == EncodeI16(l.specialType);
    assert s[8..10] == EncodeI16(l.sectorTag);
    assert s[10..12] == EncodeI16(l.frontSideDef);
    assert s[12..14] == EncodeI16(l.backSideDef);
    I16RoundTrip(l.startVertex);
    I16RoundTrip(l.endVertex);
    I16RoundTrip(l.flags);
    I16RoundTrip(l.specialType);
    I16RoundTrip(l.sectorTag);
    I16RoundTrip(l.frontSideDef);
    I16RoundTrip(l.backSideDef);
  }

  lemma SideDefRoundTrip(d: WadSideDef)
    ensures DecodeSideDef(EncodeSideDef(d)) == d
  {
    var s := EncodeSideDef(d);
    assert s[0..2] == EncodeI16(d.xTexOffset);
    assert s[2..4] == EncodeI16(d.yTexOffset);
    assert s[4..12] == d.upperTex;
    assert s[12..20] == d.lowerTex;
    assert s[20..28] == d.middleTex;
    assert s[28..30] == EncodeI16(d.sector);
    I16RoundTrip(d.xTexOffset);
    I16RoundTrip(d.yTexOffset);
    I16RoundTrip(d.sector);
  }

  lemma SectorRoundTrip(c: WadSector)
    ensures DecodeSector(EncodeSector(c)) == c
  {
    var s := EncodeSector(c);
    assert s[0..2] == EncodeI16(c.floorHeight);
    assert s[2..4] == EncodeI16(c.ceilingHeight);
    assert s[4..12] == c.floorTex;
    assert s[12..20] == c.ceilingTex;
    assert s[20..22] == EncodeI16(c.lightLevel);
    assert s[22..24] == EncodeI16(c.kind);
    assert s[24..26] == EncodeI16(c.tag);
    I16RoundTrip(c.floorHeight);
    I16RoundTrip(c.ceilingHeight);
    I16RoundTrip(c.lightLevel);
    I16RoundTrip(c.kind);
    I16RoundTrip(c.tag);
  }
}
