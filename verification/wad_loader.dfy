/**
  The header, directory and lump-dispatch part of `map_load_wad`.

  The loader reads the 12-byte header, then `lump_count` directory entries
  of 16 bytes starting at `directory_offset`, and for each entry whose
  8-byte name is one of the four level lumps it records how many records
  the lump holds and where they start. The C code trusts every offset in
  the file; this model checks them and answers with an explicit
  `LoadError` wherever the C code would read or point outside the buffer:

  - fewer than 12 bytes: `TruncatedHeader`;
  - a directory that starts before the buffer or runs past its end:
    `DirectoryOutOfBounds`;
  - an accepted lump whose bytes lie outside the buffer:
    `LumpOutOfBounds(i)` for the first such entry `i`.

  A lump whose length is not a whole number of records is skipped before
  its position is looked at, exactly as the C code skips it.
 */
module WadLoader {
  import opened Results
  import opened Bytes
  import opened WadFormat
  import opened Geometry

  // ---------------------------------------------------------------------
  // The engine map the loader fills (map.c). Only its zeroing is modelled:
  // the sector/wall conversion that would fill it is not part of this model.

  const MAX_VERTICES: nat := 1024
  const MAX_SECTORS: nat := 512
  const MAX_WALLS: nat := MAX_SECTORS * 8

  datatype MapSector = MapSector(wallStart: int, wallCount: int)

  datatype MapWall = MapWall(pos: Vec2, nextSector: int, color: int)

  datatype WadMap = WadMap(wallCount: nat, sectorCount: nat, sectors: seq<MapSector>, walls: seq<MapWall>)

  /** The map after it has been cleared to all-zero bytes. */
  function ZeroMap(): WadMap {
    WadMap(0, 0, seq(MAX_SECTORS, _ => MapSector(0, 0)), seq(MAX_WALLS, _ => MapWall(Zero, 0, 0)))
  }

  datatype LoadError =
    | TruncatedHeader
    | DirectoryOutOfBounds
    | LumpOutOfBounds(entry: nat)

  // ---------------------------------------------------------------------
  // Header and directory

  /** The header is the first 12 bytes of the file. */
  function DecodeHeader(data: seq<Byte>): (r: Result<WadHeader, LoadError>)
    ensures r.Ok? <==> |data| >= HEADER_SIZE
    ensures r.Err? ==> r.error == TruncatedHeader
    ensures r.Ok? ==> EncodeHeader(r.value) == data[..HEADER_SIZE]
  {
    if |data| < HEADER_SIZE then Err(TruncatedHeader)
    else Ok(DecodeHeaderFields(data[..HEADER_SIZE]))
  }

  lemma HeaderDecodesFromPrefix(h: WadHeader, rest: seq<Byte>)
    ensures DecodeHeader(EncodeHeader(h) + rest) == Ok(h)
  {
    assert (EncodeHeader(h) + rest)[..HEADER_SIZE] == EncodeHeader(h);
    HeaderRoundTrip(h);
  }

  /** The loop `for (i = 0; i < lump_count; ++i)` runs no times for a negative count. */
  function EntryCount(h: WadHeader): nat {
    if h.lumpCount < 0 then 0 else h.lumpCount
  }

  predicate DirectoryWithin(h: WadHeader, size: nat) {
    0 <= h.directoryOffset && h.directoryOffset + ENTRY_SIZE * EntryCount(h) <= size
  }

  /** Entry `i` occupies the 16 bytes at `directory_offset + 16 * i`. */
  function DecodeDirectory(data: seq<Byte>, h: WadHeader): (r: Result<seq<DirEntry>, LoadError>)
    ensures r.Ok? <==> DirectoryWithin(h, |data|)
    ensures r.Err? ==> r.error == DirectoryOutOfBounds
    ensures r.Ok? ==> |r.value| == EntryCount(h)
    ensures r.Ok? ==> forall i :: 0 <= i < |r.value| ==>
      EncodeEntry(r.value[i]) == data[h.directoryOffset + ENTRY_SIZE * i .. h.directoryOffset + ENTRY_SIZE * i + ENTRY_SIZE]
  {
    if !DirectoryWithin(h, |data|) then Err(DirectoryOutOfBounds)
    else
      var offset := h.directoryOffset;
      Ok(seq(EntryCount(h), i requires 0 <= i < EntryCount(h) =>
        DecodeEntry(data[offset + ENTRY_SIZE * i .. offset + ENTRY_SIZE * i + ENTRY_SIZE])))
  }

  /** The bytes of a directory written entry after entry. */
  function EncodeDirectory(es: seq<DirEntry>): (s: seq<Byte>)
    ensures |s| == ENTRY_SIZE * |es|
  {
    if |es| == 0 then [] else EncodeEntry(es[0]) + EncodeDirectory(es[1..])
  }

  lemma {:induction false} EncodedEntryAt(es: seq<DirEntry>, i: nat)
    requires i < |es|
    ensures EncodeDirectory(es)[ENTRY_SIZE * i .. ENTRY_SIZE * i + ENTRY_SIZE] == EncodeEntry(es[i])
  {
    var s := EncodeDirectory(es);
    if i == 0 {
      assert s[..ENTRY_SIZE] == EncodeEntry(es[0]);
    } else {
      EncodedEntryAt(es[1..], i - 1);
      var tail := EncodeDirectory(es[1..]);
      assert s == EncodeEntry(es[0]) + tail;
      assert s[ENTRY_SIZE * i .. ENTRY_SIZE * i + ENTRY_SIZE]
          == tail[ENTRY_SIZE * (i - 1) .. ENTRY_SIZE * (i - 1) + ENTRY_SIZE];
    }
  }

  lemma EncodeEntryInjective(a: DirEntry, b: DirEntry)
    requires EncodeEntry(a) == EncodeEntry(b)
    ensures a == b
  {
    EntryRoundTrip(a);
    EntryRoundTrip(b);
  }

  lemma SliceOfMiddle(prefix: seq<Byte>, mid: seq<Byte>, suffix: seq<Byte>, lo: nat, n: nat)
    requires lo + n <= |mid|
    ensures (prefix + mid + suffix)[|prefix| + lo .. |prefix| + lo + n] == mid[lo .. lo + n]
  {
    var data := prefix + mid + suffix;
    assert forall i :: |prefix| + lo <= i < |prefix| + lo + n ==> data[i] == mid[i - |prefix|];
  }

  /** An entry whose bytes sit at slot `i` of an in-bounds directory decodes from there. */
  lemma DecodedEntryAt(data: seq<Byte>, h: WadHeader, i: nat, e: DirEntry)
    requires DirectoryWithin(h, |data|) && i < EntryCount(h)
    requires data[h.directoryOffset + ENTRY_SIZE * i .. h.directoryOffset + ENTRY_SIZE * i + ENTRY_SIZE] == EncodeEntry(e)
    ensures DecodeDirectory(data, h).value[i] == e
  {
    EncodeEntryInjective(DecodeDirectory(data, h).value[i], e);
  }

  lemma DirectorySlot(prefix: seq<Byte>, es: seq<DirEntry>, suffix: seq<Byte>, i: nat)
    requires i < |es|
    ensures (prefix + EncodeDirectory(es) + suffix)[|prefix| + ENTRY_SIZE * i .. |prefix| + ENTRY_SIZE * i + ENTRY_SIZE]
         == EncodeEntry(es[i])
  {
    SliceOfMiddle(prefix, EncodeDirectory(es), suffix, ENTRY_SIZE * i, ENTRY_SIZE);
    EncodedEntryAt(es, i);
  }

  lemma DirectoryEntryRoundTrip(prefix: seq<Byte>, es: seq<DirEntry>, suffix: seq<Byte>, h: WadHeader, i: nat)
    requires h.directoryOffset == |prefix| && h.lumpCount == |es| && i < |es|
    ensures DecodeDirectory(prefix + EncodeDirectory(es) + suffix, h).Ok?
    ensures DecodeDirectory(prefix + EncodeDirectory(es) + suffix, h).value[i] == es[i]
  {
    var data := prefix + EncodeDirectory(es) + suffix;
    assert |data| == |prefix| + ENTRY_SIZE * |es| + |suffix|;
    assert DirectoryWithin(h, |data|);
    DirectorySlot(prefix, es, suffix, i);
    var off := h.directoryOffset + ENTRY_SIZE * i;
    assert off == |prefix| + ENTRY_SIZE * i;
    assert data[off .. off + ENTRY_SIZE] == EncodeEntry(es[i]);
    DecodedEntryAt(data, h, i, es[i]);
  }

  /** A directory placed at `directory_offset` decodes to the entries written there. */
  lemma DirectoryRoundTrip(prefix: seq<Byte>, es: seq<DirEntry>, suffix: seq<Byte>, h: WadHeader)
    requires h.directoryOffset == |prefix| && h.lumpCount == |es|
    ensures DecodeDirectory(prefix + EncodeDirectory(es) + suffix, h) == Ok(es)
  {
    var data := prefix + EncodeDirectory(es) + suffix;
    assert DirectoryWithin(h, |data|);
    var ds := DecodeDirectory(data, h).value;
    forall i | 0 <= i < |es|
      ensures ds[i] == es[i]
    {
      DirectoryEntryRoundTrip(prefix, es, suffix, h, i);
    }
    assert ds == es;
  }

  // ---------------------------------------------------------------------
  // Lump names

  /**
    The name as C sees it after copying the 8 bytes into a 9-byte buffer
    whose last byte is NUL: everything before the first NUL byte.
   */
  function CString(name: seq<Byte>): (r: seq<Byte>)
    ensures |r| <= |name| && r == name[..|r|]
    ensures forall i :: 0 <= i < |r| ==> r[i] != 0
    ensures |r| < |name| ==> name[|r|] == 0
  {
    if |name| == 0 || name[0] == 0 then []
    else [name[0]] + CString(name[1..])
  }

  /** `strcmp(str, target) == 0` for a target that holds no NUL. */
  predicate NameIs(name: seq<Byte>, target: seq<Byte>) {
    CString(name) == target
  }

  function Ascii(s: string): (b: seq<Byte>)
    requires forall i :: 0 <= i < |s| ==> s[i] as int < 0x80
    ensures |b| == |s|
    ensures forall i :: 0 <= i < |s| ==> b[i] == s[i] as int
  {
    seq(|s|, i requires 0 <= i < |s| => s[i] as int)
  }

  datatype LumpKind = Vertexes | LineDefs | SideDefs | Sectors

  function LumpName(k: LumpKind): (n: seq<Byte>)
    ensures 0 !in n
  {
    match k
    case Vertexes => Ascii("VERTEXES")
    case LineDefs => Ascii("LINEDEFS")
    case SideDefs => Ascii("SIDEDEFS")
    case Sectors => Ascii("SECTORS")
  }

  /** `sizeof` of each lump's record type. */
  function RecordSize(k: LumpKind): nat {
    match k
    case Vertexes => VERTEX_SIZE
    case LineDefs => LINEDEF_SIZE
    case SideDefs => SIDEDEF_SIZE
    case Sectors => SECTOR_SIZE
  }

  /** A name whose first `n` bytes are not NUL and whose byte `n` is, reads as `n` bytes long. */
  lemma CStringLength(name: seq<Byte>, n: nat)
    requires n <= |name|
    requires forall i :: 0 <= i < n ==> name[i] != 0
    requires n < |name| ==> name[n] == 0
    ensures |CString(name)| == n
  {
  }

  /**
    Matching a name against a target without NUL bytes: the first
    `|target|` bytes are the target, and the name ends right there.
   */
  lemma NameIsIff(name: seq<Byte>, target: seq<Byte>)
    requires 0 !in target && |target| <= |name|
    ensures NameIs(name, target) <==>
      name[..|target|] == target && (|target| < |name| ==> name[|target|] == 0)
  {
    if name[..|target|] == target && (|target| < |name| ==> name[|target|] == 0) {
      forall i | 0 <= i < |target|
        ensures name[i] != 0
      {
        assert name[i] == target[i];
        assert target[i] in target;
      }
      CStringLength(name, |target|);
    }
  }

  /** "SECTORS" has 7 letters, so it matches only a name whose eighth byte is NUL. */
  lemma SectorsNeedsTerminator(name: Name8)
    ensures NameIs(name, LumpName(Sectors)) <==> name[..7] == Ascii("SECTORS") && name[7] == 0
  {
    NameIsIff(name, LumpName(Sectors));
  }

  /** The three 8-letter names fill the whole field and match it exactly. */
  lemma FullNamesMatchExactly(name: Name8, k: LumpKind)
    requires k != Sectors
    ensures NameIs(name, LumpName(k)) <==> name == LumpName(k)
  {
    NameIsIff(name, LumpName(k));
    assert name[..8] == name;
  }

  lemma LumpNamesDistinct(a: LumpKind, b: LumpKind)
    requires a != b
    ensures LumpName(a) != LumpName(b)
  {
    if |LumpName(a)| == |LumpName(b)| {
      assert LumpName(a)[0] != LumpName(b)[0];
    }
  }

  /** A name matches at most one of the four lump names. */
  lemma NameMatchesOneKind(name: seq<Byte>)
    ensures forall a, b :: NameIs(name, LumpName(a)) && NameIs(name, LumpName(b)) ==> a == b
  {
    forall a, b | NameIs(name, LumpName(a)) && NameIs(name, LumpName(b))
      ensures a == b
    {
      if a != b {
        LumpNamesDistinct(a, b);
      }
    }
  }

  /** The `if`/`else if` chain over the four names. */
  function Classify(name: Name8): Option<LumpKind> {
    if NameIs(name, LumpName(Vertexes)) then Some(Vertexes)
    else if NameIs(name, LumpName(LineDefs)) then Some(LineDefs)
    else if NameIs(name, LumpName(SideDefs)) then Some(SideDefs)
    else if NameIs(name, LumpName(Sectors)) then Some(Sectors)
    else None
  }

  /** A name is classified as kind `k` exactly when it reads as that kind's name. */
  lemma ClassifyIff(name: Name8, k: LumpKind)
    ensures Classify(name) == Some(k) <==> NameIs(name, LumpName(k))
  {
    NameMatchesOneKind(name);
  }

  // ---------------------------------------------------------------------
  // The lump table: a count and a base offset per recognised lump.

  /** `base` is None while the lump's address is still NULL. */
  datatype LumpRef = LumpRef(count: nat, base: Option<int>)

  const EmptyRef := LumpRef(0, None)

  datatype LumpTable = LumpTable(vertexes: LumpRef, lineDefs: LumpRef, sideDefs: LumpRef, sectors: LumpRef)
  {
    function Get(k: LumpKind): LumpRef {
      match k
      case Vertexes => vertexes
      case LineDefs => lineDefs
      case SideDefs => sideDefs
      case Sectors => sectors
    }

    function Set(k: LumpKind, r: LumpRef): (t: LumpTable)
      ensures t.Get(k) == r
      ensures forall k' :: k' != k ==> t.Get(k') == Get(k')
    {
      match k
      case Vertexes => this.(vertexes := r)
      case LineDefs => this.(lineDefs := r)
      case SideDefs => this.(sideDefs := r)
      case Sectors => this.(sectors := r)
    }
  }

  /** Before the directory is read every count is 0 and every address NULL. */
  const EmptyTable := LumpTable(EmptyRef, EmptyRef, EmptyRef, EmptyRef)

  const SIZE_T_MODULUS: nat := 0x1_0000_0000_0000_0000

  /**
    `file_len % sizeof(...)` and `file_len / sizeof(...)` convert the signed
    32-bit length to the unsigned 64-bit `size_t` first.
   */
  function SizeT(v: Int32): (n: nat)
    ensures n < SIZE_T_MODULUS
    ensures n == v % SIZE_T_MODULUS
  {
    if v < 0 then v + SIZE_T_MODULUS else v
  }

  /** A matched entry whose length is a whole number of records. */
  predicate Accepted(e: DirEntry, k: LumpKind) {
    Classify(e.name) == Some(k) && SizeT(e.fileLen) % RecordSize(k) == 0
  }

  predicate LumpWithin(e: DirEntry, size: nat) {
    0 <= e.filePos && e.filePos + SizeT(e.fileLen) <= size
  }

  /** An accepted entry that points outside the buffer. */
  predicate Rejected(e: DirEntry, size: nat) {
    match Classify(e.name)
    case None => false
    case Some(k) => Accepted(e, k) && !LumpWithin(e, size)
  }

  /** What an accepted entry records: its record count and its offset. */
  function RefOf(e: DirEntry, k: LumpKind): LumpRef {
    LumpRef(SizeT(e.fileLen) / RecordSize(k), Some(e.filePos))
  }

  predicate RefWithin(r: LumpRef, recordSize: nat, size: nat) {
    match r.base
    case None => r.count == 0
    case Some(b) => 0 <= b && b + r.count * recordSize <= size
  }

  /** Every lump of the table lies inside a buffer of `size` bytes. */
  predicate TableWithin(t: LumpTable, size: nat) {
    forall k :: RefWithin(t.Get(k), RecordSize(k), size)
  }

  lemma WholeRecords(n: nat, k: LumpKind)
    requires n % RecordSize(k) == 0
    ensures n / RecordSize(k) * RecordSize(k) == n
  {
    match k
    case Vertexes =>
    case LineDefs =>
    case SideDefs =>
    case Sectors =>
  }

  /** One iteration of the directory loop. */
  function ApplyEntry(t: LumpTable, e: DirEntry, index: nat, size: nat): (r: Result<LumpTable, LoadError>)
    ensures Classify(e.name).None? ==> r == Ok(t)
    ensures forall k :: Classify(e.name) == Some(k) && !Accepted(e, k) ==> r == Ok(t)
    ensures r.Err? <==> Rejected(e, size)
    ensures r.Err? ==> r.error == LumpOutOfBounds(index)
    ensures forall k :: Accepted(e, k) && r.Ok? ==>
      && r.value.Get(k).base == Some(e.filePos)
      && r.value.Get(k).count * RecordSize(k) == SizeT(e.fileLen)
      && forall k' :: k' != k ==> r.value.Get(k') == t.Get(k')
    ensures TableWithin(t, size) && r.Ok? ==> TableWithin(r.value, size)
  {
    match Classify(e.name)
    case None => Ok(t)
    case Some(k) =>
      var len := SizeT(e.fileLen);
      if len % RecordSize(k) != 0 then Ok(t)
      else if !LumpWithin(e, size) then Err(LumpOutOfBounds(index))
      else
        WholeRecords(len, k);
        Ok(t.Set(k, RefOf(e, k)))
  }

  /** The directory loop as a left fold over entries `from`, `from + 1`, ... */
  function Scan(t: LumpTable, es: seq<DirEntry>, from: nat, size: nat): (r: Result<LumpTable, LoadError>)
    requires from <= |es|
    ensures TableWithin(t, size) && r.Ok? ==> TableWithin(r.value, size)
    ensures r.Err? ==> r.error.LumpOutOfBounds?
    decreases |es| - from
  {
    if from == |es| then Ok(t)
    else
      match ApplyEntry(t, es[from], from, size)
      case Err(err) => Err(err)
      case Ok(t') => Scan(t', es, from + 1, size)
  }

  /** Index of the last accepted entry of kind `k` at or after `from`, or -1. */
  function LastAccepted(es: seq<DirEntry>, k: LumpKind, from: nat): (j: int)
    requires from <= |es|
    ensures j == -1 || from <= j < |es|
    ensures j == -1 <==> forall i :: from <= i < |es| ==> !Accepted(es[i], k)
    ensures j >= 0 ==> Accepted(es[j], k) && forall i :: j < i < |es| ==> !Accepted(es[i], k)
    decreases |es| - from
  {
    if from == |es| then -1
    else
      var j := LastAccepted(es, k, from + 1);
      if j >= 0 then j
      else if Accepted(es[from], k) then from
      else -1
  }

  /**
    Last one wins: after the loop each lump holds what its last accepted
    entry recorded, and a lump that no entry was accepted for is as before.
   */
  lemma {:induction false} ScanLastWins(t: LumpTable, es: seq<DirEntry>, from: nat, size: nat, k: LumpKind)
    requires from <= |es|
    requires Scan(t, es, from, size).Ok?
    ensures var j := LastAccepted(es, k, from);
      Scan(t, es, from, size).value.Get(k) == if j < 0 then t.Get(k) else RefOf(es[j], k)
    decreases |es| - from
  {
    if from < |es| {
      var t' := ApplyEntry(t, es[from], from, size).value;
      ScanLastWins(t', es, from + 1, size, k);
      if LastAccepted(es, k, from + 1) < 0 && Accepted(es[from], k) {
        assert t'.Get(k) == RefOf(es[from], k);
      }
    }
  }

  /** Index of the first rejected entry at or after `from`, or -1. */
  function FirstRejected(es: seq<DirEntry>, size: nat, from: nat): (j: int)
    requires from <= |es|
    ensures j == -1 || from <= j < |es|
    ensures j == -1 <==> forall i :: from <= i < |es| ==> !Rejected(es[i], size)
    ensures j >= 0 ==> Rejected(es[j], size) && forall i :: from <= i < j ==> !Rejected(es[i], size)
    decreases |es| - from
  {
    if from == |es| then -1
    else if Rejected(es[from], size) then from
    else FirstRejected(es, size, from + 1)
  }

  /** The loop fails exactly at the first accepted entry that leaves the buffer. */
  lemma {:induction false} ScanFailsAtFirstRejected(t: LumpTable, es: seq<DirEntry>, from: nat, size: nat)
    requires from <= |es|
    ensures var j := FirstRejected(es, size, from);
      && (Scan(t, es, from, size).Err? <==> j >= 0)
      && (j >= 0 ==> Scan(t, es, from, size) == Err(LumpOutOfBounds(j)))
    decreases |es| - from
  {
    if from < |es| {
      var a := ApplyEntry(t, es[from], from, size);
      if a.Ok? {
        ScanFailsAtFirstRejected(a.value, es, from + 1, size);
      }
    }
  }

  // ---------------------------------------------------------------------
  // The whole parse

  /** Header, directory, then the directory loop from the empty table. */
  function ParseWad(data: seq<Byte>): (r: Result<LumpTable, LoadError>)
    ensures r.Ok? ==> TableWithin(r.value, |data|)
    ensures r == Err(TruncatedHeader) <==> |data| < HEADER_SIZE
    ensures r == Err(DirectoryOutOfBounds) <==>
      |data| >= HEADER_SIZE && !DirectoryWithin(DecodeHeader(data).value, |data|)
  {
    match DecodeHeader(data)
    case Err(err) => Err(err)
    case Ok(h) =>
      match DecodeDirectory(data, h)
      case Err(err) => Err(err)
      case Ok(es) => Scan(EmptyTable, es, 0, |data|)
  }

  /** A parsed file's lumps are those its directory's last accepted entries name. */
  lemma ParsedLumpsFromDirectory(data: seq<Byte>, h: WadHeader, es: seq<DirEntry>, k: LumpKind)
    requires DecodeHeader(data) == Ok(h) && DecodeDirectory(data, h) == Ok(es)
    requires ParseWad(data).Ok?
    ensures var j := LastAccepted(es, k, 0);
      ParseWad(data).value.Get(k) == if j < 0 then EmptyRef else RefOf(es[j], k)
  {
    ScanLastWins(EmptyTable, es, 0, |data|, k);
  }

  datatype LoadResult = LoadResult(returned: bool, mapState: WadMap, parsed: Option<Result<LumpTable, LoadError>>)

  /**
    `map_load_wad`: `resource` is what the resource service returns for the
    file name. The map is cleared only once the bytes are there.
   */
  function LoadWad(resource: Option<seq<Byte>>, prior: WadMap): (r: LoadResult)
    ensures !r.returned <==> resource.None?
    ensures !r.returned ==> r.mapState == prior && r.parsed == None
    ensures r.returned ==> r.mapState.sectorCount == 0 && r.mapState.wallCount == 0 && r.mapState == ZeroMap()
    ensures r.returned ==> r.parsed == Some(ParseWad(resource.value))
  {
    match resource
    case None => LoadResult(false, prior, None)
    case Some(data) => LoadResult(true, ZeroMap(), Some(ParseWad(data)))
  }

  // ---------------------------------------------------------------------
  // The records a lump reference points at: `(WadVertex *)(data + file_pos)`.

  lemma RecordInside(count: nat, recordSize: nat, i: nat)
    requires i < count
    ensures recordSize * i + recordSize <= count * recordSize
  {
    assert recordSize * (i + 1) <= recordSize * count;
  }

  /** The bytes of record `i` of a lump. */
  function RecordBytes(data: seq<Byte>, r: LumpRef, recordSize: nat, i: nat): (s: seq<Byte>)
    requires RefWithin(r, recordSize, |data|) && i < r.count
    ensures |s| == recordSize
  {
    var b := r.base.value;
    RecordInside(r.count, recordSize, i);
    data[b + recordSize * i .. b + recordSize * i + recordSize]
  }

  function VertexRecords(data: seq<Byte>, r: LumpRef): (vs: seq<WadVertex>)
    requires RefWithin(r, VERTEX_SIZE, |data|)
    ensures |vs| == r.count
    ensures forall i :: 0 <= i < |vs| ==> EncodeVertex(vs[i]) == RecordBytes(data, r, VERTEX_SIZE, i)
  {
    seq(r.count, i requires 0 <= i < r.count => DecodeVertex(RecordBytes(data, r, VERTEX_SIZE, i)))
  }

  function LineDefRecords(data: seq<Byte>, r: LumpRef): (ls: seq<WadLineDef>)
    requires RefWithin(r, LINEDEF_SIZE, |data|)
    ensures |ls| == r.count
    ensures forall i :: 0 <= i < |ls| ==> EncodeLineDef(ls[i]) == RecordBytes(data, r, LINEDEF_SIZE, i)
  {
    seq(r.count, i requires 0 <= i < r.count => DecodeLineDef(RecordBytes(data, r, LINEDEF_SIZE, i)))
  }

  function SideDefRecords(data: seq<Byte>, r: LumpRef): (ds: seq<WadSideDef>)
    requires RefWithin(r, SIDEDEF_SIZE, |data|)
    ensures |ds| == r.count
    ensures forall i :: 0 <= i < |ds| ==> EncodeSideDef(ds[i]) == RecordBytes(data, r, SIDEDEF_SIZE, i)
  {
    seq(r.count, i requires 0 <= i < r.count => DecodeSideDef(RecordBytes(data, r, SIDEDEF_SIZE, i)))
  }

  function SectorRecords(data: seq<Byte>, r: LumpRef): (cs: seq<WadSector>)
    requires RefWithin(r, SECTOR_SIZE, |data|)
    ensures |cs| == r.count
    ensures forall i :: 0 <= i < |cs| ==> EncodeSector(cs[i]) == RecordBytes(data, r, SECTOR_SIZE, i)
  {
    seq(r.count, i requires 0 <= i < r.count => DecodeSector(RecordBytes(data, r, SECTOR_SIZE, i)))
  }
}
