# A WAD lump reader and a sector raycaster, in Dafny

This project models the two cores of a small C raycasting renderer.

**The WAD loader** (`map_load_wad` in `map.c`). It reads a Doom WAD file, which is:
- a 12-byte header: a 4-byte identifier, `lump_count` and `directory_offset`;
- a directory of 16-byte entries: `file_pos`, `file_len` and an 8-byte name.

For every entry named `VERTEXES`, `LINEDEFS`, `SIDEDEFS` or `SECTORS` whose length is a whole number of records, the loader records how many records the lump holds and where they start. A later entry of the same kind replaces an earlier one.

In the model:
- Bytes are `seq<Byte>`. Every `i16`/`i32` field is decoded as an explicit little-endian two's-complement value.
- The directory loop is a left fold over the entries into a table of four lump references (`WadLoader.Scan`).
- `file_len % sizeof(...)` converts the signed length to the 64-bit `size_t` first, and so does the model (`WadLoader.SizeT`).
- The C code trusts every offset in the file. The model checks them and answers with an explicit `LoadError` where the C code would read or point outside the buffer. There are three such errors:
  - `TruncatedHeader`: the file is shorter than the header.
  - `DirectoryOutOfBounds`: the directory does not fit in the buffer.
  - `LumpOutOfBounds(i)`: entry `i` is the first accepted lump that does not fit.

**The raycaster** (`main.c`). The level is a table of sectors and walls. A sector is a run of consecutive walls, each joined to the next and the last back to the first. The shipped level is one sector of eight walls. For each screen column, `step` computes:
- `camera_x`, running from -1 at the left edge towards 1 at the right;
- the ray `player_dir + camera_plane * camera_x`, normalised;
- the camera plane, recomputed from the facing direction every frame.

`raycast` then walks the edges of sector 0. For every edge whose inner side holds the ray's origin, it intersects the ray with the edge (`line_ray_intersect`). It measures the depth of the intersection along the facing direction and keeps the nearest edge with a depth in (0, 99999.9), the first one on a tie. Finally it draws a vertical strip whose height is `2 * H / depth`, centred on the canvas. `to_view_space` expresses a world point in the camera's (plane, direction) basis.

Numbers in the raycaster are exact reals. This idealises the source's 32-bit floats and ignores rounding, infinities and NaNs; where IEEE semantics decide a branch, the model writes that outcome out. The 2D vector helpers (`vec2_sub`, `vec2_dot`, `vec2_perp`, `vec2_perp_dot`, ...) come from a platform library that is not part of this model. They are defined here with their conventional formulas, with `perp(v) = (-v.y, v.x)`.

Modules:
- `Results`: `Option` and `Result`.
- `Bytes`: little-endian integers.
- `WadFormat`: record layouts.
- `WadLoader`: `map_load_wad`.
- `Geometry`: vectors.
- `Intersect`: `line_ray_intersect`.
- `Level`: sectors, walls and the shipped level.
- `ViewSpace`: the camera, `to_view_space` and `camera_x`.
- `Raycaster`: `raycast` and the column loop of `step`.
- `StaticRender`: facts about the shipped level seen from the starting camera.

## Model

| member | source | states |
|---|---|---|
| `Bytes.DecodeI32` | map.c:28-32 | a 4-byte little-endian `i32` is negative exactly when the top bit of its last byte is set, and equals the unsigned value modulo 2^32 |
| `Bytes.DecodeI16` | map.c:40-43 | a 2-byte little-endian `i16` is negative exactly when the top bit of its second byte is set, and equals the unsigned value modulo 2^16 |
| `Bytes.I32RoundTrip` | map.c:28-38 | decoding the 4 bytes written for any `i32` gives it back |
| `Bytes.I32BytesRoundTrip` | map.c:28-38 | encoding the value decoded from any 4 bytes gives those bytes back, so the field encoding is a bijection |
| `Bytes.I16RoundTrip` | map.c:40-72 | decoding the 2 bytes written for any `i16` gives it back |
| `Bytes.I16BytesRoundTrip` | map.c:40-72 | encoding the value decoded from any 2 bytes gives those bytes back |
| `Geometry.Add` | main.c:275 | `vec2_add`: the componentwise sum |
| `Geometry.Sub` | main.c:78-79 | `vec2_sub`: the componentwise difference |
| `Geometry.Mul` | main.c:123 | `vec2_mul`: a vector scaled by a real factor |
| `Geometry.Dot` | main.c:82 | `vec2_dot`: the sum of the componentwise products |
| `Geometry.Perp` | main.c:80 | `vec2_perp`: the quarter turn `(-y, x)` |
| `Geometry.PerpDot` | main.c:88 | `vec2_perp_dot`: the 2D cross product `a.x * b.y - a.y * b.x` |
| `WadFormat.EncodeHeader` | map.c:28-32 | the header occupies 12 bytes, `sizeof(WadHeader)` |
| `WadFormat.EncodeEntry` | map.c:34-38 | a directory entry occupies 16 bytes, `sizeof(WadDirectoryEntry)` |
| `WadFormat.EncodeVertex` | map.c:40-43 | a vertex occupies 4 bytes, `sizeof(WadVertex)` |
| `WadFormat.EncodeLineDef` | map.c:45-53 | a line-def occupies 14 bytes, `sizeof(WadLineDef)` |
| `WadFormat.EncodeSideDef` | map.c:55-62 | a side-def occupies 30 bytes, `sizeof(WadSideDef)` |
| `WadFormat.EncodeSector` | map.c:64-72 | a sector occupies 26 bytes, `sizeof(WadSector)` |
| `WadFormat.DecodeHeaderFields` | map.c:89-91 | the header read from 12 bytes re-encodes to exactly those bytes |
| `WadFormat.DecodeEntry` | map.c:113-116 | the entry read from 16 bytes re-encodes to exactly those bytes |
| `WadFormat.DecodeVertex` | map.c:40-43 | the vertex read from 4 bytes re-encodes to exactly those bytes |
| `WadFormat.DecodeLineDef` | map.c:45-53 | the line-def read from 14 bytes re-encodes to exactly those bytes |
| `WadFormat.DecodeSideDef` | map.c:55-62 | the side-def read from 30 bytes re-encodes to exactly those bytes |
| `WadFormat.DecodeSector` | map.c:64-72 | the sector read from 26 bytes re-encodes to exactly those bytes |
| `WadFormat.HeaderRoundTrip` | map.c:28-32 | reading back a written header gives the same identifier, lump count and directory offset |
| `WadFormat.EntryRoundTrip` | map.c:34-38 | reading back a written directory entry gives the same position, length and name |
| `WadFormat.VertexRoundTrip` | map.c:40-43 | reading back a written vertex gives the same coordinates |
| `WadFormat.LineDefRoundTrip` | map.c:45-53 | reading back a written line-def gives the same seven fields |
| `WadFormat.SideDefRoundTrip` | map.c:55-62 | reading back a written side-def gives the same offsets, texture names and sector |
| `WadFormat.SectorRoundTrip` | map.c:64-72 | reading back a written sector gives the same heights, textures, light, type and tag |
| `WadLoader.DecodeHeader` | map.c:89-91 | the header is read exactly when the file holds 12 bytes, fails with `TruncatedHeader` otherwise, and is the one whose encoding is the first 12 bytes |
| `WadLoader.HeaderDecodesFromPrefix` | map.c:89-91 | whatever follows a written header, the header is read back unchanged |
| `WadLoader.EntryCount` | map.c:111 | the number of times `for (i = 0; i < lump_count; ++i)` runs: `lump_count`, or none for a negative count |
| `WadLoader.DecodeDirectory` | map.c:110-116 | the directory is read exactly when `lump_count` entries (none for a negative count) fit from `directory_offset`; entry `i` is the one whose encoding is the 16 bytes at `directory_offset + 16 * i` |
| `WadLoader.EncodeDirectory` | map.c:110-116 | a directory of `n` entries occupies `16 * n` bytes |
| `WadLoader.DirectoryEntryRoundTrip` | map.c:110-116 | entry `i` of a directory written at `directory_offset` is read back unchanged, whatever surrounds it |
| `WadLoader.DirectoryRoundTrip` | map.c:110-116 | a directory written at `directory_offset` is read back as exactly the entries written |
| `WadLoader.CString` | map.c:118-120 | the name as C sees it after copying it into a NUL-terminated 9-byte buffer: the bytes before the first NUL, none of them NUL, followed by a NUL or the end of the field |
| `WadLoader.NameIs` | map.c:124 | `strcmp(str, target) == 0`: the name as C reads it from the 9-byte buffer is exactly the target |
| `WadLoader.NameIsIff` | map.c:118-124 | `strcmp(str, target) == 0` holds exactly when the field starts with the target and has a NUL right after it or ends there |
| `WadLoader.SectorsNeedsTerminator` | map.c:163 | a name matches "SECTORS" exactly when its first seven bytes spell it and its eighth byte is NUL |
| `WadLoader.FullNamesMatchExactly` | map.c:124-150 | a name matches "VERTEXES", "LINEDEFS" or "SIDEDEFS" exactly when the 8-byte field is that word |
| `WadLoader.LumpNamesDistinct` | map.c:124-163 | the four lump names differ from one another |
| `WadLoader.NameMatchesOneKind` | map.c:124-163 | no name matches two of the lump names, so at most one branch of the `if`/`else if` chain applies |
| `WadLoader.Classify` | map.c:124-163 | the `if`/`else if` chain over "VERTEXES", "LINEDEFS", "SIDEDEFS" and "SECTORS", tried in that order; `WadLoader.ClassifyIff` characterises it |
| `WadLoader.ClassifyIff` | map.c:124-175 | an entry is dispatched to lump kind `k` exactly when its name reads as `k`'s name |
| `WadLoader.SizeT` | map.c:126-132 | the signed `file_len`, converted to `size_t`, is the length modulo 2^64 |
| `WadLoader.Accepted` | map.c:126 | an entry is taken for kind `k` when its name selects `k` and its length, as a `size_t`, is a multiple of `sizeof` of `k`'s record; the same test recurs at lines 139, 152 and 165 |
| `WadLoader.RefOf` | map.c:132-133 | what an accepted entry stores: `file_len / sizeof` records (on the `size_t` length) at `file_pos`; the same pair of stores recurs at lines 145-146, 158-159 and 171-172 |
| `WadLoader.ApplyEntry` | map.c:113-175 | one loop iteration: an unrecognised name or a length that is not a whole number of records leaves the table unchanged; an accepted in-bounds entry sets only its own lump, to the entry's position and `file_len / sizeof` records; the iteration fails exactly on an accepted lump outside the buffer; every lump stays inside the buffer |
| `WadLoader.Scan` | map.c:111-176 | the directory loop keeps every recorded lump inside the buffer and fails only with `LumpOutOfBounds` |
| `WadLoader.LastAccepted` | map.c:111-175 | the index of the last entry accepted for a kind, or -1 when none is |
| `WadLoader.ScanLastWins` | map.c:111-175 | after the loop each lump holds what its last accepted entry recorded; a lump no entry was accepted for keeps its value from before the loop |
| `WadLoader.FirstRejected` | map.c:111-175 | the index of the first accepted entry that leaves the buffer, or -1 when there is none |
| `WadLoader.ScanFailsAtFirstRejected` | map.c:111-175 | the loop fails exactly when some accepted entry leaves the buffer, and names the first such entry |
| `WadLoader.ParseWad` | map.c:84-176 | a successful parse keeps every lump inside the file; it fails with `TruncatedHeader` exactly for files shorter than 12 bytes and with `DirectoryOutOfBounds` exactly when the header's directory does not fit |
| `WadLoader.ParsedLumpsFromDirectory` | map.c:97-176 | the parsed table holds, for each kind, the count and position from the last accepted directory entry, or count 0 and no position when there is none |
| `WadLoader.ZeroMap` | map.c:82 | the map after `memset(map, 0, sizeof(Map))`: no sectors or walls counted, and every slot all zero |
| `WadLoader.LoadWad` | map.c:75-84 | without the file's bytes the loader returns false and leaves the map untouched; with them it clears the map to zero and parses the bytes |
| `WadLoader.RecordBytes` | map.c:133 | record `i` of an in-bounds lump is `sizeof` bytes long |
| `WadLoader.VertexRecords` | map.c:132-133 | the vertices of an in-bounds lump: as many as recorded, vertex `i` read from the 4 bytes at `file_pos + 4 * i` |
| `WadLoader.LineDefRecords` | map.c:145-146 | the line-defs of an in-bounds lump, line-def `i` read from the 14 bytes at `file_pos + 14 * i` |
| `WadLoader.SideDefRecords` | map.c:158-159 | the side-defs of an in-bounds lump, side-def `i` read from the 30 bytes at `file_pos + 30 * i` |
| `WadLoader.SectorRecords` | map.c:171-172 | the sectors of an in-bounds lump, sector `i` read from the 26 bytes at `file_pos + 26 * i` |
| `Intersect.LineRayIntersect` | main.c:76-100 | the result is the sentinel (-1, -1) or a ray distance >= 0 with a segment position in [0, 1]; a ray parallel to the segment never hits |
| `Intersect.Denominator` | main.c:82 | `dot = vec2_dot(p2 - p1, perp(ray_dir))`, zero exactly for a ray parallel to the segment |
| `Intersect.HitMeets` | main.c:76-100 | every reported hit is a point on both the ray, at the reported ray distance, and the segment, at the reported position |
| `Intersect.MeetingHits` | main.c:76-100 | every crossing of a non-parallel ray and segment is reported, with exactly its ray distance and segment position |
| `Level.RingEdge` | main.c:115-116 | step `k` of the walk round a sector joins wall `start + k` to wall `start + (k + 1) % count`, both inside the sector's run |
| `Level.Inside` | main.c:118 | the ray's origin is on an edge's inner side when `perp_dot(origin - p1, p2 - p1) > 0` |
| `Level.RingSuccessor` | main.c:116 | an edge ends at the next wall of the run, or at the first wall after the last |
| `Level.RingCloses` | main.c:113-116 | consecutive edges share a corner, the last and the first included: the walk is a closed ring |
| `Level.RingEndsEachWallOnce` | main.c:113-116 | every wall of the run ends exactly one edge of the ring |
| `Level.StaticSceneValid` | main.c:42-58 | the shipped level has one sector owning all eight walls, and no wall leads to another sector |
| `Level.OriginInsideStaticRing` | main.c:49-63 | the player's starting point is on the inner side of every edge of the shipped sector |
| `ViewSpace.ToViewSpace` | main.c:163-173 | the view-space coordinates `(x, y)` place the point at `pos + plane * x + dir * y` |
| `ViewSpace.ToViewSpaceInverse` | main.c:163-173 | mapping the view-space coordinates back to the world gives the original point |
| `ViewSpace.ToViewSpaceUnique` | main.c:163-173 | the view-space coordinates are the only ones that place the point |
| `ViewSpace.Det` | main.c:167 | the divisor of `to_view_space`, `plane.x * dir.y - dir.x * plane.y` |
| `ViewSpace.CameraPlane` | main.c:264 | the per-frame camera plane is at right angles to the facing direction, 0.66 times as long, and makes the determinant 0.66 times the squared length of the direction |
| `ViewSpace.InitialPlaneMatchesFormula` | main.c:61-63 | the starting camera plane (0.66, 0) is what the per-frame formula gives for the starting direction (0, 1) |
| `ViewSpace.FramePlaneInvertible` | main.c:167 | with the per-frame plane, `to_view_space`'s determinant is positive for every non-zero direction, so its division is defined |
| `ViewSpace.CameraX` | main.c:272 | `camera_x` lies in [-1, 1) and is -1 at the left column |
| `ViewSpace.CameraXIncreasing` | main.c:272 | `camera_x` strictly increases from column to column |
| `ViewSpace.ColumnRay` | main.c:275 | the unnormalised ray of a column, `player_dir + camera_plane * camera_x` |
| `ViewSpace.ColumnRayForward` | main.c:264-275 | every column's ray, however it is rescaled by a positive factor, points forwards: its dot product with the facing direction is positive |
| `Raycaster.EdgeCandidate` | main.c:118-123 | an edge offers a candidate exactly when the ray's origin is on its inner side; the depth is the ray distance times `dot(player_dir, ray_dir)`, and for a missed edge it is the sentinel's `-dot(player_dir, ray_dir)` with position -1 |
| `Raycaster.Candidates` | main.c:113-123 | the walk over the ring yields, for every ring step in order, exactly that edge's candidate |
| `Raycaster.Eligible` | main.c:125 | an edge can be chosen only when its depth is positive and below the initial 99999.9 |
| `Raycaster.NearestUnique` | main.c:125-130 | at most one edge is the nearest |
| `Raycaster.NearestIsMinimum` | main.c:125-130 | the nearest edge's depth is the least among all eligible candidates |
| `Raycaster.StripHeight` | main.c:140 | the strip height is the integer part of `2 * H / depth`: non-negative, with `h * depth <= 2 * H < (h + 1) * depth` |
| `Raycaster.NearerIsTaller` | main.c:140 | a nearer wall never gets a shorter strip |
| `Raycaster.StripStart` | main.c:143-145 | the strip is centred on the canvas, up to one row of rounding |
| `Raycaster.StripRows` | main.c:147-159 | the drawn rows are exactly `start + y` for `y < h` that are neither negative nor greater than `H` (so row `H` itself is drawn), in order |
| `Raycaster.TallStripCoversCanvas` | main.c:143-159 | a strip at least two rows taller than the canvas paints every row from 0 to `H` |
| `Raycaster.Raycast` | main.c:105-161 | the column draws nothing and keeps depth 99999.9 exactly when no edge is eligible; otherwise it picks the first nearest eligible edge, with that edge's depth and position, and draws exactly the rows of its strip, top to bottom in the order of the `y` loop |
| `Raycaster.EligibleMeansHit` | main.c:118-130 | for a forward ray an eligible edge is really crossed by the ray, in front of its origin |
| `Raycaster.ForwardColumnWithin` | main.c:113-136 | when some edge offers a forward ray a depth within a bound, the column draws a crossed wall no deeper than that bound |
| `Raycaster.MissNotEligible` | main.c:118-125 | an edge a forward ray misses is never chosen |
| `Raycaster.OnlyEligibleDrawn` | main.c:113-136 | when exactly one edge is eligible, the column draws that edge at its depth and position |
| `Raycaster.HitScaled` | main.c:76-100 | rescaling the ray of a hit by `k > 0` divides the ray distance by `k` and keeps the segment position |
| `Raycaster.IntersectScaled` | main.c:76-100 | rescaling the ray by `k > 0` keeps misses missing and rescales hits inversely |
| `Raycaster.ScaledHitCandidate` | main.c:121-123 | rescaling the ray does not change a hit edge's depth or position |
| `Raycaster.ScaledMissCandidate` | main.c:121-125 | a forward ray's missed edge is never eligible, before or after rescaling |
| `Raycaster.ScaledCandidate` | main.c:121-125 | for a forward ray, rescaling changes neither which candidates are eligible nor their depths and positions |
| `Raycaster.ScaledRaySameNearest` | main.c:275 | normalising a forward ray leaves the chosen edge, its depth and its position unchanged |
| `Raycaster.ScaledColumnSpec` | main.c:275 | for a forward ray, a column meets the raycast's promise for the ray exactly when it meets it for the ray rescaled by any positive factor, as normalising does |
| `Raycaster.FrameRay` | main.c:272-275 | the ray of column `x`: the facing direction plus the per-frame camera plane times `camera_x` |
| `Raycaster.RenderFrame` | main.c:270-278 | the frame casts one ray per column, from the player's position through the per-frame camera plane in sector 0; each column meets the raycast's promise for its ray and, for a non-zero facing direction, for that ray rescaled by any positive factor, so also for the normalised ray the source casts |
| `Raycaster.FrameDrawsOnlyHits` | main.c:264-278 | every wall a frame draws, with the ray normalised by any positive factor, is really crossed by its column's ray in front of the player, at the drawn position in [0, 1] |
| `Raycaster.BackwardEligibleAreMisses` | main.c:118-125 | for a ray pointing backwards, every eligible edge is one the ray misses, with depth `-dot(player_dir, ray_dir)` and position -1 |
| `Raycaster.BackwardColumnDrawsMissedEdge` | main.c:105-136 | a backward column that draws anything draws the first eligible edge, which the ray never crosses |
| `StaticRender.StaticEdge` | main.c:45-58 | ring step `k` of the shipped sector joins walls `k` and `(k + 1) % 8` |
| `StaticRender.UpHitsFarWall` | main.c:52-53 | from the origin, the ray straight ahead crosses the alcove's far wall 4 units out, halfway along |
| `StaticRender.FarWallOffer` | main.c:118-123 | that wall offers the ray straight ahead depth 4 at position 0.5 |
| `StaticRender.ParallelMiss` | main.c:80-93 | the ray straight ahead runs parallel to a vertical edge and misses it |
| `StaticRender.HorizontalCrossing` | main.c:76-100 | the ray straight ahead from the origin meets a horizontal edge at ray distance `p1.y` and position `p1.x / (p1.x - p2.x)`, and hits exactly when both are in range |
| `StaticRender.UpMissesOtherEdges` | main.c:49-58 | the ray straight ahead from the start misses all seven edges of the shipped sector other than the alcove's far wall |
| `StaticRender.OnlyFarWallEligible` | main.c:118-125 | no edge but the far wall is eligible for the ray straight ahead |
| `StaticRender.FarWallOnlyOffer` | main.c:113-125 | the far wall is the one eligible edge for the ray straight ahead, at depth 4 and position 0.5 |
| `StaticRender.FarWallHit` | main.c:121 | ring step 2 of the shipped sector is crossed by the ray straight ahead 4 units out, halfway along |
| `StaticRender.CenterRayDrawsFarWall` | main.c:105-136 | looking straight ahead from the start, the column draws the alcove's far wall (edge 2), at depth 4 and position 0.5, where the ray crosses it |
| `StaticRender.DownMissesEdge0` | main.c:50-51 | the ray straight behind misses edge 0, although the origin is on its inner side |
| `StaticRender.BackwardOfferOfEdge0` | main.c:118-123 | edge 0 offers the backward ray depth 1 at position -1 |
| `StaticRender.BackwardRaySelectsMissedEdge` | main.c:105-136 | a ray cast straight behind a player facing +y selects edge 0, which it never crosses, at depth 1 and position -1 |
| `StaticRender.MiddleColumnLooksAhead` | main.c:272-275 | on a canvas with an even number of columns, the middle column's ray is the facing direction |
| `StaticRender.FirstFrameMiddleColumn` | main.c:264-277 | in the first frame (starting camera at the origin facing +y), the column looking along the facing direction, normalised by any positive factor `k`, draws the alcove's far wall at depth 4 and position 0.5, crossed at ray distance `4 / k` |

## Left out

- The sector and wall conversion at map.c:218-237 is left out. Its inner loop ends in an `if` with no statement before the closing brace (line 233), so the code does not say what it does. The model keeps only the clearing of the map and leaves `sector_count` and `wall_count` at 0.
- The printing in map.c (lines 86, 93-95, 122, 128, 135, 141, 148, 154, 161, 167, 174 and 178-215) is left out. It is output only.
- The error messages on stderr for lumps that are not a whole number of records are left out. The model skips those entries, as the source does.
- `resource_get` belongs to the platform and is not part of this model. `WadLoader.LoadWad` takes what it returns as an `Option` parameter.
- The bounds errors are the model's addition. The C code reads the header and directory with `memcpy` and stores lump addresses without comparing any offset to `data_size`. Out of bounds it has undefined behaviour, which the model replaces with an explicit error. In particular, `WadLoader.Scan` stops at the first accepted out-of-bounds lump, where the C loop keeps going.
- The header and records are decoded as little-endian values. This is what `memcpy` into the structs gives on the little-endian machines the renderer targets. The structs are ordinary C structs, but every field sits at a multiple of its own size, so they have no padding.
- Texture sampling and `pixel_draw` (main.c:149-158) are left out. The model produces the canvas rows each column paints, but not their colours. Two positions the model reaches would sample outside the texture row in the source. A hit at a segment's end point has `lineDist == 1.0`, which gives `tex_x == chess.width` at main.c:149, one past the row. A backward ray that draws a missed edge (`Raycaster.BackwardColumnDrawsMissedEdge`) has `lineDist == -1.0`, which gives a negative `tex_x`.
- `wall_dists` (main.c:102, 134) is left out. It is written but never read by the rendering.
- `rotate` (main.c:175-188) is left out: it needs sine and cosine, and the model uses exact reals. The input handling and movement in `step` (main.c:247-263) are left out too.
- `vec2_normalize` (main.c:275) is left out: its square root is not a rational operation. `Raycaster.ScaledColumnSpec` shows that rescaling a forward ray by any positive factor leaves each column's outcome unchanged. So the model casts the unnormalised ray in `Raycaster.RenderFrame`, whose contract also covers every positively rescaled ray.
- `draw_minimap`, `init`, text drawing and the frame counter (main.c:191-243, 280-288) are left out. They are drawing and set-up only.
- 32-bit float rounding, infinities and NaNs are left out; numbers are exact reals. The one IEEE-dependent branch, a ray parallel to a segment, is written out. There `t2` is an infinity or a NaN, so `0 <= t2 <= 1` cannot hold and the ray misses, whatever `t1` is.
- The overflow of the `int` strip height for walls very close to the player is left out.
- `ViewSpace.ToViewSpace` requires a non-zero determinant. The source divides by it unchecked, and a zero determinant gives no meaningful coordinates. `ViewSpace.FramePlaneInvertible` shows the per-frame camera always satisfies this.
- Strip rows: the source skips rows with `py > PUN_CANVAS_HEIGHT`, so it draws row `PUN_CANVAS_HEIGHT`, one past the last canvas row. The model keeps that as written (`Raycaster.StripRows`). The platform's pixel clipping, which decides what happens to that row, is not part of this model.
- After the loop, `raycast` indexes `WALLS` with the ring step `closest_wall` rather than `wall_start + closest_wall`. The model leaves that lookup out because the `wall` pointer it produces (main.c:138) is never read: every pixel samples the `chess` texture. So the mis-indexing has no effect on any level.
