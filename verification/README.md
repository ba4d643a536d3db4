# Region editor core, modelled in Dafny

The program is a small map-region editor. It opens a Doom-format WAD
archive and loads one map from it: things, linedefs, sidedefs, vertexes and
sectors. It shows the map in a pannable, zoomable view. Over the map, the
user creates rectangular "regions", names them, reorders them in a list,
and drags their edges and corners with the mouse.

This project models that core as pure functions over byte sequences,
integers and reals, and proves what each part does:

- `bytes.dfy`: bytes, little-endian signed 16/32-bit integers, and
  `strncmp` as the archive code uses it on fixed 8-byte names.
- `stream.dfy`: the archive's `FILE *` as a byte sequence plus a position.
  `fseek`, `fread` and `std::vector::resize` are functions on it.
- `wad.dfy`: the 12-byte header, the 16-byte directory entries, and the
  `wad_c` constructor.
- `records.dfy`: the five packed map record layouts.
- `map_loader.dfy`: `wad_lump_c::load_as_vector` and the `map_c`
  constructor. This covers the marker search, the lookahead loop as
  written, and a corrected seven-entry lookahead.
- `viewport.dfy`: `MapSpaceToScreenSpace` and its inverse, and the zoom
  and pan input of `DrawMap`.
- `regions.dfy`: `region_c`, `ValidateRegionTitle` and `NewRegion`, and the
  "Regions" window edits in `DoFrame`: rename, drag-reorder and
  bounding-box clamp.
- `handles.dfy`: the grab-handle bit mask and `RectMoveByHandles`. Also the
  parts of `DrawRegions` that are not drawing: handle classification,
  cursor choice and click selection. Also how the frame hands the mouse
  from `DrawRegions` to `DrawMap`.

Calls the model cannot see become parameters:

- the file's contents;
- the `rand()` results;
- ImGui's answers to "is the mouse over this rectangle", "is the left
  button dragging", "was it clicked", and the wheel and drag amounts.

## Model

| member | source | states |
|---|---|---|
| Bytes.EncodeInt16 | src/main.cpp:235-242 | a 16-bit field is stored low byte first in two bytes, and reading the two bytes back gives the field |
| Bytes.Int16Bijective | src/main.cpp:235-242 | every 2-byte pattern in a record is the encoding of exactly one 16-bit value, so decoding loses nothing |
| Bytes.EncodeInt32 | src/main.cpp:149-155 | a 32-bit header field is stored low byte first in four bytes, and reading them back gives the field |
| Bytes.Int32Bijective | src/main.cpp:157-162 | every 4-byte pattern is the encoding of exactly one signed 32-bit value |
| Bytes.StrNEqualCString | src/main.cpp:169 | comparing a keyword with an 8-byte name under strncmp: a keyword of 8 or more bytes must equal the whole field; a shorter one must be a prefix followed by a NUL |
| Bytes.StrNEqualFixed | src/main.cpp:204-205 | on two 4-byte buffers, one without NULs, strncmp over 4 bytes is plain equality |
| Stream.Seek | src/main.cpp:174 | fseek to a non-negative offset moves there, even past the end of the file; a negative offset fails and leaves the stream as it was |
| Stream.Read | src/main.cpp:175 | fread of a buffer inside the file copies exactly those bytes and moves past them; a read the end of the file cuts short leaves the position at the end of the file; a read at or past the end changes nothing |
| Stream.ReadOverlay | src/main.cpp:175 | byte for byte, fread copies the file while it lasts and leaves the rest of the buffer unchanged |
| Stream.ResizeContents | src/main.cpp:172 | vector::resize keeps the bytes that fit and zero-fills the new ones |
| Wad.EncodeHeader | src/main.cpp:149-155 | the header is tag, lump count and directory offset in 12 bytes, and its encoding decodes back to it |
| Wad.EncodeEntry | src/main.cpp:157-162 | a directory entry is offset, size and 8-byte name in 16 bytes, and its encoding decodes back to it |
| Wad.DirectoryRoundTrip | src/main.cpp:217-219 | a directory written as consecutive 16-byte records reads back as the same entries in the same order |
| Wad.AcceptedTagIsMagic | src/main.cpp:204-209 | the tag test accepts a 4-byte tag exactly when it is "PWAD" or "IWAD" |
| Wad.ReadHeader | src/main.cpp:203 | with at least 12 bytes in the file, the header is the decoding of the first 12 bytes and the stream is left just after them |
| Wad.ReadDirectory | src/main.cpp:217-219 | the directory has exactly lump_count entries; the k-th decodes the file's bytes from the k-th 16-byte record on, from where the read starts: the record itself when it lies inside the file, its head padded with zeros when the end of the file cuts through it, all zero when it lies past the end |
| Wad.Construct | src/main.cpp:193-223 | the constructor as written: an unopenable file keeps the initial flag with an empty directory; the flag only ever changes to true; an invalid archive has no directory |
| Wad.ConstructIsOpenButTheFlag | src/main.cpp:188-223 | the constructor as written gives exactly the archive that Open gives, header and directory included, except that its flag is also true whenever the storage held true |
| Wad.Open | src/main.cpp:193-223 | with the flag initialised false: valid exactly when the file opened, the tag is PWAD or IWAD and lump_count > 0; invalid gives an empty directory; valid gives lump_count entries, the k-th decoded from the k-th record at the directory offset, zero-padded where the file ends |
| Wad.OpenWellFormed | src/main.cpp:211-222 | a well-formed archive with N > 0 entries opens as valid with exactly its header and its N entries in file order, whatever lies between header and directory |
| Wad.RejectedArchiveKeepsStaleFlag | src/main.cpp:193-215 | as written, every early return leaves `valid` holding whatever the storage held, with an empty directory |
| Wad.NotAWadMayReadValid | src/main.cpp:204-209 | a 12-byte file with tag "ABCD" is rejected when the flag starts false but reads as valid when the storage held true |
| Records.EncodeThing | src/main.cpp:235-242 | a thing is five 16-bit fields in 10 bytes, and its encoding decodes back to it |
| Records.EncodeLinedef | src/main.cpp:244-253 | a linedef is seven 16-bit fields in 14 bytes, and its encoding decodes back to it |
| Records.EncodeSidedef | src/main.cpp:255-263 | a sidedef is two offsets, three raw 8-byte texture names and a sector id in 30 bytes, and its encoding decodes back to it |
| Records.EncodeVertex | src/main.cpp:265-269 | a vertex is two 16-bit coordinates in 4 bytes, and its encoding decodes back to it |
| Records.EncodeSector | src/main.cpp:301-310 | a sector is two heights, two 8-byte texture names and three 16-bit fields in 26 bytes, and its encoding decodes back to it |
| Records.PackRecord | src/main.cpp:174-175 | in records written back to back, the k-th record-sized slice is the k-th record's layout |
| Records.ThingsRoundTrip | src/main.cpp:174-175 | a THINGS lump written from a list of things reads back into the vector as the same list |
| Records.LinedefsRoundTrip | src/main.cpp:174-175 | a LINEDEFS lump written from a list of linedefs reads back into the vector as the same list |
| Records.SidedefsRoundTrip | src/main.cpp:174-175 | a SIDEDEFS lump written from a list of sidedefs reads back into the vector as the same list |
| Records.VertexesRoundTrip | src/main.cpp:174-175 | a VERTEXES lump written from a list of vertices reads back into the vector as the same list |
| Records.SectorsRoundTrip | src/main.cpp:174-175 | a SECTORS lump written from a list of sectors reads back into the vector as the same list |
| MapLoader.Keyword | src/main.cpp:348-352 | each keyword is a NUL-free C string of 1 to 8 bytes |
| MapLoader.KeywordMatch | src/main.cpp:169 | a lump matches a keyword exactly when its name starts with the keyword and, if the keyword is shorter than 8 bytes, has a NUL right after it |
| MapLoader.ElementCountFits | src/main.cpp:171-172 | the count size / sizeof(T), taken after size is converted to a 64-bit size_t, fits in a vector under libstdc++'s max_size exactly when size >= 0, and is then the truncating quotient |
| MapLoader.LoadAsVector | src/main.cpp:164-182 | a lump that does not match returns false and changes nothing; a match with a negative size throws; otherwise it returns true, the vector holds size / sizeof(T) records, those are the lump's bytes when they lie inside the file, and no other vector changes |
| MapLoader.LoadKinds | src/main.cpp:348-352 | offering one lump to several vectors fails exactly when it matches one of their keywords with a negative size, and keeps every vector a whole number of records |
| MapLoader.LoadKindsEffect | src/main.cpp:348-352 | after the offers, a vector that was offered the lump and matched holds its bytes, and every other vector is untouched |
| MapLoader.LoadResources | src/main.cpp:348-352 | the five load_as_vector calls on one lump fail exactly when it matches a keyword with a negative size |
| MapLoader.LoadResourcesEffect | src/main.cpp:348-352 | one resource lump is read into every vector whose keyword it matches and leaves the others alone |
| MapLoader.FoldLumps | src/main.cpp:339-353 | reading the resource lumps in order fails exactly when one of them aborts, and otherwise never changes the file |
| MapLoader.FoldLumpsUntouched | src/main.cpp:339-353 | lumps that never match a keyword leave that vector as it was |
| MapLoader.FoldLumpsLastMatch | src/main.cpp:339-353 | the last lump matching a keyword decides that vector's contents: last match wins |
| MapLoader.FirstMarker | src/main.cpp:332-337 | the scan stops at the first entry whose name equals the map name in 8 bytes, and no earlier entry matches |
| MapLoader.FirstMarkerFinds | src/main.cpp:332-337 | the scan finds a marker exactly when some directory entry has the map name |
| MapLoader.ScanAsWrittenReadsToEnd | src/main.cpp:339-345 | ScanAsWritten, the loop as written, which increments i and not j, reads every entry after the marker in order up to the end of the directory |
| MapLoader.ScanWindowReadsWindow | src/main.cpp:339-345 | ScanWindow, the loop with j advancing, reads exactly the entries i+1 to i+7 in order, cut short at the end of the directory |
| MapLoader.LoadMap | src/main.cpp:324-362 | an invalid archive or a missing marker gives an unloaded, empty map; otherwise the map comes from reading every entry after the first marker |
| MapLoader.LoadMapOutcome | src/main.cpp:326-357 | the map is loaded exactly when the archive is valid and has the marker, unless an examined lump aborts the program |
| MapLoader.LoneMarkerLoads | src/main.cpp:337-357 | a marker with nothing after it still gives a loaded map with no records |
| MapLoader.DecodedHolds | src/main.cpp:171-175 | a vector read from a lump decodes to size / sizeof(T) records, the ones its bytes hold |
| MapLoader.LoadMapLastMatch | src/main.cpp:339-353 | when no examined lump aborts, the map is loaded, and for the last examined lump matching a keyword it has size / sizeof(T) records of that kind and, when the lump lies inside the file, exactly the records its bytes decode to |
| MapLoader.LoadMapNoMatch | src/main.cpp:339-353 | a kind that no examined lump matches is empty in the map |
| MapLoader.LoadMapWindowed | src/main.cpp:339-353 | the corrected loader behaves like the code except that only the entries after the marker within the seven-entry window are read |
| MapLoader.LoadMapWindowedOutcome | src/main.cpp:339-345 | the corrected loader reads at most seven entries, fails exactly when one of them aborts, and is loaded exactly when the archive is valid and has the marker |
| MapLoader.WindowIgnoresLaterEntries | src/main.cpp:339-345 | whatever follows the window in the directory, such as another map's lumps, never changes what the corrected loader gives |
| MapLoader.LoadMapWindowedNoMatch | src/main.cpp:339-353 | a kind that no entry in the window matches is empty in the corrected loader's map |
| MapLoader.LeakAsWritten | src/main.cpp:339-353 | as written, a directory with a THINGS lump nine entries after the marker loads that lump as the map's things |
| MapLoader.NoLeakWindowed | src/main.cpp:339-353 | with the seven-entry window, the same directory gives a loaded map with no things |
| MapLoader.LaterMapLeaksIn | src/main.cpp:339-353 | for a concrete PWAD with MAP01 followed by MAP02, loading MAP01 as written gives MAP02's thing, while the corrected loader gives no things |
| Viewport.Clamp | src/main.cpp:516-520 | std::clamp stays in [lo, hi]: a value inside is kept, one below gives lo, one above gives hi |
| Viewport.InitialView | src/main.cpp:428 | the view starts with zero scroll and zoom 0.5, inside [0.01, 1] |
| Viewport.ScreenToMapAfterMapToScreen | src/main.cpp:501-507 | at any non-zero zoom MapToScreen, the model of MapSpaceToScreenSpace, is invertible: screen to map after map to screen is the identity |
| Viewport.MapToScreenAfterScreenToMap | src/main.cpp:501-507 | MapToScreen after ScreenToMap is the identity too, so the transform is a bijection |
| Viewport.MapToScreenScales | src/main.cpp:501-507 | under MapToScreen, screen distances are map distances times zoom * ZOOM_BASE, with the vertical axis flipped |
| Viewport.ZoomStep | src/main.cpp:513-522 | a zero wheel keeps the zoom; a non-zero wheel gives a zoom in [0.01, 1], which is zoom * (1 + wheel / 8) whenever that lies in range |
| Viewport.ZoomStepMonotone | src/main.cpp:516-520 | from a zoom in range, scrolling forward never zooms out and scrolling back never zooms in |
| Viewport.ZoomStaysInRange | src/main.cpp:516-520 | however many wheel events arrive, a zoom that starts in [0.01, 1] stays there |
| Viewport.PanFollowsPointer | src/main.cpp:524-529 | a right-button drag moves every map point on screen by exactly the mouse movement |
| Viewport.DrawMapInput | src/main.cpp:509-530 | a mouse already taken changes nothing; otherwise the wheel zooms, then the drag pans at the new zoom, and either takes the mouse; the zoom stays in range and the work area is untouched |
| Seqs.Swap | src/main.cpp:972 | iter_swap exchanges the two positions, leaves all others alone and keeps the same elements |
| Regions.Hue | src/main.cpp:380 | the hue rand() / RAND_MAX lies in [0, 1] |
| Regions.DefaultColor | src/main.cpp:380-392 | a new region's colour is three values that are an arrangement of hue, 1 and 0 |
| Regions.DefaultColorChoicesDistinct | src/main.cpp:385-392 | when the hue is neither 0 nor 1, the two shuffle choices pick the arrangement uniquely: different choices give different colours |
| Regions.DefaultRegion | src/main.cpp:373-393 | a new region is titled "Untitled region", has corners (-64,-64) and (64,64), and has the shuffled colour |
| Regions.NatToStringInjective | src/main.cpp:917 | different suffix numbers are written differently |
| Regions.CandidateInjective | src/main.cpp:916-917 | the titles tried, base, "base (2)", "base (3)", and so on, are all different |
| Regions.FirstFreeTitleUnique | src/main.cpp:893-925 | only one title is the first free candidate, so the result of disambiguation is determined |
| Regions.FirstFreeAmongNone | src/main.cpp:893-925 | with no other titles, the title is kept as it is |
| Regions.FirstFreeAmongBase | src/main.cpp:893-925 | when only the base title is taken, the result is "base (2)" |
| Regions.TitleTaken | src/main.cpp:906-921 | the inner loop reports a clash exactly when a region other than the one being validated holds the title |
| Regions.ValidateTitle | src/main.cpp:893-925 | the loop ends with a title no other region holds; an already unique title is kept; otherwise it is "base (N)" for the smallest N >= 2 not taken |
| Regions.ValidatedStaysDistinct | src/main.cpp:924 | giving the validated region a title no other region holds makes every title distinct |
| Regions.NewRegion | src/main.cpp:927-932 | appends exactly one region, keeps the earlier ones, gives it the default corners and colour with the first free variant of "Untitled region", and keeps titles distinct |
| Regions.TwoNewRegions | src/main.cpp:927-932 | starting from no regions, two New Region presses give "Untitled region" and "Untitled region (2)" |
| Regions.Rename | src/main.cpp:994-1003 | an empty entry or no valid selection changes nothing; otherwise the selected region takes the first free variant of the entry, nothing else changes, and titles stay distinct |
| Regions.Reorder | src/main.cpp:967-976 | dragging the active row swaps it with the neighbour in the drag direction, and the selection follows it, only when that index is in [0, len); other positions are kept, the list is a permutation of the original, and at either end nothing changes |
| Regions.ReorderKeepsTitlesDistinct | src/main.cpp:969-975 | reordering keeps the titles distinct |
| Regions.ClampBox | src/main.cpp:1005-1011 | after an edit of the bounding box each corner coordinate is the entered one clamped to [-32768, 32767], so every corner lies on the grid, and the title and colour are kept |
| Regions.ClampBoxFixesGrid | src/main.cpp:1007-1010 | clamping leaves a box unchanged exactly when it is already on the grid, so clamping is idempotent |
| Handles.AllEdgesInAll | src/main.cpp:414-422 | GRAB_ALL holds all four edge bits, and GRAB_ALL and GRAB_NULL are both handles the editor can hold |
| Handles.RectMoveByHandles | src/main.cpp:592-613 | only the edges whose bits are set move: LEFT moves a.x, TOP a.y, RIGHT b.x and BOTTOM b.y, each by delta / zoom / ZOOM_BASE; the others stay |
| Handles.GrabbedEdgesFollowPointer | src/main.cpp:592-613 | on screen, every grabbed edge moves by exactly the mouse movement and every other edge stays put |
| Handles.MoveAllTranslates | src/main.cpp:592-613 | GRAB_ALL moves both corners by the same amount, so the rectangle keeps its size |
| Handles.MoveNullKeepsRect | src/main.cpp:592-613 | GRAB_NULL moves nothing |
| Handles.AxisBitsThreshold | src/main.cpp:682-701 | on each axis the low edge is grabbed exactly when the pointer is more than 0.85 of the half-extent below the centre, the high edge when as far above, and neither otherwise |
| Handles.BandHandleEdges | src/main.cpp:664-702 | in the border band, LEFT is set exactly when the normalised x offset is below -0.85 and RIGHT exactly when it is above 0.85, and likewise TOP and BOTTOM; opposite edges are never both set and the result is never GRAB_ALL |
| Handles.GrabStep | src/main.cpp:629-714 | with the mouse free and a selection: a drag with a held handle moves the selected region's edges; otherwise inside the inner rectangle gives GRAB_ALL, the band gives its edge bits, and outside gives GRAB_NULL; a taken mouse or no selection gives GRAB_NULL; only the selected region's corners ever change |
| Handles.CursorShowsEdges | src/main.cpp:716-747 | CursorFor gives every handle the editor can hold the cursor of its edges: vertical resize for top or bottom, horizontal for left or right, the matching diagonal for a corner, four-way arrows for GRAB_ALL, and no cursor for GRAB_NULL |
| Handles.TopHovered | src/main.cpp:749-784 | the region found is the highest-indexed one under the pointer, or none |
| Handles.SelectFrom | src/main.cpp:749-784 | with the mouse free, the topmost region under the pointer shows the hand cursor when no handle is held, and a click selects it and takes the mouse; with the mouse taken nothing changes |
| Handles.OneGesturePerFrame | src/main.cpp:945-946 | DrawRegions, one frame of the region loop, handles one gesture per frame: a grab keeps the selection; a selection change needs a click and moves no region; once regions take the mouse the map view is unchanged; titles are never touched |
| Handles.DrawRegionsKeepsTitlesDistinct | src/main.cpp:615-814 | DrawRegions, handling the mouse over the regions, keeps their titles distinct |
| Handles.StartEditor | src/main.cpp:404 | the editor with the selection started as none (-1): nothing is selected, no handle is held and the mouse is free, whatever regions exist |
| Handles.UnclickedFrameKeepsStart | src/main.cpp:615-814 | from that start, a frame without a click leaves the editor exactly as it was; a region becomes selected only by a click, and then it is the topmost one under the pointer, with no handle grabbed and no region moved |
| Handles.StaleSelectionGrabsUnclicked | src/main.cpp:404 | as written, a selection whose uninitialised storage happens to index a region lets a pointer merely resting over it grab the whole region and take the mouse with no click, a state the start editor never reaches |

## Left out

- Window, SDL, OpenGL and ImGui setup and teardown, and the frame loop plumbing, are platform I/O.
- All drawing is left out: the grid, linedefs and things in `DrawMap`, region fills, outlines and titles, the menu bar and the demo window. These are calls into ImGui draw lists.
- `printf` logging is output only.
- `fopen` becomes the `Source` parameter: either no file, or the file's bytes.
- `fread` is modelled the way glibc behaves. It copies bytes up to the end of file and leaves the rest of the destination as it was.
- Wad.ReadHeader: for a file shorter than 12 bytes, the header bytes past the end of the file are modelled as zero. In the program they are whatever the object's storage held.
- Host struct layout is not modelled. Records are decoded field by field with no padding, which matches the packed layouts the program relies on.
- The seg, subsector and node record layouts are commented out in the source and are not modelled.
- `std::vector::resize` asking for more than `max_size()` elements (a matching lump with a negative size) is modelled as `Err(LengthError)`. Under libstdc++ (GCC) the program throws `std::length_error`, which nothing catches. `std::bad_alloc` for a huge but permitted count is not modelled.
- `size_t` is taken as 64 bits and `max_size()` as libstdc++'s `PTRDIFF_MAX / sizeof(T)`. libc++ and MSVC's library use `min(PTRDIFF_MAX, SIZE_MAX / sizeof(T))`. Under them the same negative-size lump passes the length check, and the allocation then throws an uncaught `std::bad_alloc`. So `Err` still means the program terminates, but not by the same exception.
- Region titles are modelled as `string`, a sequence of Unicode characters. The program's `std::string` holds bytes, and `compare` at src/main.cpp:914 compares bytes. Equality, the only outcome of that comparison the program uses, is the same either way for titles held in one encoding.
- Coordinates, zoom and colours are `real`, not single-precision floats. The constants 0.85 and 0.01 are exact here, while the program rounds them to the nearest float.
- Regions.Hue: the hue is the exact quotient rand() / RAND_MAX, with RAND_MAX 2^31 - 1. The program divides in float, which rounds.
- `rand()` results are parameters.
- ImGui's hover, drag and click tests are parameters of the pointer, and so are the wheel and the drag amounts. So is the `WantCaptureMouse` flag ImGui sets at the start of the frame.
- `ResetMouseDragDelta` is not modelled: each frame's drag amount is an input.
- The list row's Selectable click setting the selection is not modelled.
- The title input box's own state (`title_input`, `old_selection`) is not modelled; Regions.Rename takes the entered text as an input.
- Regions.Reorder: only one swap per list row is modelled. In the program the moved row can be seen again, still active, at the next index in the same frame.
- The region's `rules` map is never read or written by the core and is left out.
- `std::atomic_bool loaded` is a plain `bool`; no concurrency is involved.
- Regions.ValidateTitle: the suffix counter is an unbounded natural. The program's `int append_num` could overflow only after 2^31 clashing titles.
- Only a single map is loaded: `LoadGenericMap` and `Loop` always open "MAP01.wad" and load "MAP01", which is I/O around the modelled constructors.
- MapLoader.LoadMapWindowed: the corrected loader reads the seven entries the loop header names. The standard Doom map has more lumps than that; see Findings.

## Findings

| source | as written | input that shows it | evidently intended | confidence | as-written member | corrected member |
|---|---|---|---|---|---|---|
| src/main.cpp:339 | `for (int j = 1; j < 8; ++i)` increments `i`, so `j` stays 1 and every directory entry after the marker, up to the end of the directory, is read as this map's lumps | a PWAD with MAP01 and seven lumps, then MAP02 and a THINGS lump: loading MAP01 returns MAP02's thing | read only the entries `i + 1` to `i + 7` after the marker (`++j`), so a later map's lumps cannot leak in; in the standard Doom lump order SECTORS is the eighth lump after the marker, so a window of eight may have been meant | not executed | MapLoader.LaterMapLeaksIn | MapLoader.WindowIgnoresLaterEntries |
| src/main.cpp:188 | `bool valid;` is never initialised; the constructor sets it only on success, so every early return leaves whatever the storage held | a 12-byte file with tag "ABCD": `Construct(…, true)` reports it valid | initialise `valid` to false, so an unopenable file, a wrong tag or no lumps gives an invalid archive | not executed | Wad.NotAWadMayReadValid | Wad.Open |
| src/main.cpp:404 | `int selected_region_id;` has no initialiser, `main_c`'s constructor does not set it, and the object is a local of `main`; the first frames read it at lines 630, 762 and 981 before anything writes it | storage holding 0, one region added with "New region", and the pointer resting over that region without a click: the region is grabbed whole and takes the mouse | start the selection as none (-1), so that until a click nothing is selected or grabbed | not executed | Handles.StaleSelectionGrabsUnclicked | Handles.UnclickedFrameKeepsStart |
