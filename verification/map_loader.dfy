/**
 * The map loader: find the map-marker lump in an archive's directory and
 * decode the five kinds of map records from the keyword lumps that follow.
 *
 * While loading, each record vector is held as its bytes (an `Images`
 * field), because `std::vector::resize` and `fread` act on those bytes: a
 * second matching lump resizes the vector (keeping a prefix of the old
 * contents) and then overwrites only as many bytes as the file still holds.
 */
module MapLoader {
  import opened Bytes
  import opened Stream
  import opened Wad
  import opened Records

  datatype Kind = Things | Linedefs | Sidedefs | Vertexes | Sectors

  /** The order in which the loader offers each lump to the five vectors. */
  const KINDS: seq<Kind> := [Things, Linedefs, Sidedefs, Vertexes, Sectors]

  /** The keyword a lump's name must carry for it to be read as records of `kind`. */
  function Keyword(kind: Kind): (key: seq<byte>)
    ensures IsCString(key) && 0 < |key| <= NAME_SIZE
  {
    match kind
    case Things => [0x54, 0x48, 0x49, 0x4E, 0x47, 0x53]                // "THINGS"
    case Linedefs => [0x4C, 0x49, 0x4E, 0x45, 0x44, 0x45, 0x46, 0x53]  // "LINEDEFS"
    case Sidedefs => [0x53, 0x49, 0x44, 0x45, 0x44, 0x45, 0x46, 0x53]  // "SIDEDEFS"
    case Vertexes => [0x56, 0x45, 0x52, 0x54, 0x45, 0x58, 0x45, 0x53]  // "VERTEXES"
    case Sectors => [0x53, 0x45, 0x43, 0x54, 0x4F, 0x52, 0x53]         // "SECTORS"
  }

  /** `sizeof` the record struct of `kind`. */
  function RecordSize(kind: Kind): (n: nat)
    ensures n > 0
  {
    match kind
    case Things => THING_SIZE
    case Linedefs => LINEDEF_SIZE
    case Sidedefs => SIDEDEF_SIZE
    case Vertexes => VERTEX_SIZE
    case Sectors => SECTOR_SIZE
  }

  /** The bytes of the five vectors while loading. */
  datatype Images = Images(things: seq<byte>, linedefs: seq<byte>, sidedefs: seq<byte>,
                           vertexes: seq<byte>, sectors: seq<byte>)
  {
    function Get(kind: Kind): seq<byte>
    {
      match kind
      case Things => things
      case Linedefs => linedefs
      case Sidedefs => sidedefs
      case Vertexes => vertexes
      case Sectors => sectors
    }

    function Set(kind: Kind, img: seq<byte>): (r: Images)
      ensures r.Get(kind) == img
      ensures forall other :: other != kind ==> r.Get(other) == Get(other)
    {
      match kind
      case Things => this.(things := img)
      case Linedefs => this.(linedefs := img)
      case Sidedefs => this.(sidedefs := img)
      case Vertexes => this.(vertexes := img)
      case Sectors => this.(sectors := img)
    }

    /** Every vector holds a whole number of records. */
    predicate WellSized()
    {
      && |things| % THING_SIZE == 0 && |linedefs| % LINEDEF_SIZE == 0 && |sidedefs| % SIDEDEF_SIZE == 0
      && |vertexes| % VERTEX_SIZE == 0 && |sectors| % SECTOR_SIZE == 0
    }
  }

  const NO_IMAGES := Images([], [], [], [], [])

  /** The loader's working state: the archive's stream and the vectors' bytes. */
  datatype Loading = Loading(file: File, images: Images)

  /**
   * `std::length_error`, thrown by `vector::resize` when asked for more than
   * `max_size()` elements; nothing catches it, so the program terminates.
   * That is libstdc++'s (GCC's) behaviour. Under libc++ or MSVC's library a
   * negative lump size passes the length check and the allocation throws
   * `std::bad_alloc` instead, also uncaught: `Err` still means the program
   * terminates, but not by the same exception.
   */
  datatype LoadError = LengthError

  datatype Result<T> = Ok(value: T) | Err(error: LoadError)

  /** A constructed `map_c`. */
  datatype MapData = MapData(
    loaded: bool,
    things: seq<Thing>, linedefs: seq<Linedef>, sidedefs: seq<Sidedef>,
    vertices: seq<Vertex>, sectors: seq<Sector>)

  const NOT_LOADED := MapData(false, [], [], [], [], [])

  // ---------------------------------------------------------------------
  // wad_lump_c::load_as_vector
  // ---------------------------------------------------------------------

  /** `strlen(safety_name) == 0 || strncmp(safety_name, name, 8) == 0` */
  predicate Matches(keyword: seq<byte>, lump: LumpEntry)
  {
    |keyword| == 0 || StrNEqual(keyword, lump.name, NAME_SIZE)
  }

  /**
   * A lump matches a keyword exactly when its 8-byte name starts with the
   * keyword and, if the keyword is shorter than 8 bytes, has a NUL right after it.
   */
  lemma KeywordMatch(kind: Kind, lump: LumpEntry)
    requires |lump.name| == NAME_SIZE
    ensures var key := Keyword(kind);
      Matches(key, lump) <==> lump.name[..|key|] == key && (|key| == NAME_SIZE || lump.name[|key|] == 0)
  {
    var key := Keyword(kind);
    StrNEqualCString(key, lump.name, NAME_SIZE);
    if |key| == NAME_SIZE {
      assert key[..NAME_SIZE] == key;
    }
  }

  const SIZE_T_MODULUS: int := 0x1_0000_0000_0000_0000
  const PTRDIFF_MAX: int := 0x7FFF_FFFF_FFFF_FFFF

  /** `size / sizeof(T)`: the signed 32-bit size is converted to a 64-bit `size_t` before dividing. */
  function ElementCount(size: int32, kind: Kind): nat
  {
    var unsigned: nat := if size >= 0 then size else size + SIZE_T_MODULUS;
    match kind
    case Things => unsigned / THING_SIZE
    case Linedefs => unsigned / LINEDEF_SIZE
    case Sidedefs => unsigned / SIDEDEF_SIZE
    case Vertexes => unsigned / VERTEX_SIZE
    case Sectors => unsigned / SECTOR_SIZE
  }

  /**
   * `std::vector<T>::max_size()` of libstdc++ (GCC) on a 64-bit target:
   * `PTRDIFF_MAX / sizeof(T)`. libc++ and MSVC's library give
   * `min(PTRDIFF_MAX, SIZE_MAX / sizeof(T))` instead.
   */
  function MaxElements(kind: Kind): nat
  {
    match kind
    case Things => PTRDIFF_MAX / THING_SIZE
    case Linedefs => PTRDIFF_MAX / LINEDEF_SIZE
    case Sidedefs => PTRDIFF_MAX / SIDEDEF_SIZE
    case Vertexes => PTRDIFF_MAX / VERTEX_SIZE
    case Sectors => PTRDIFF_MAX / SECTOR_SIZE
  }

  /**
   * The element count fits in a vector exactly when the lump's size is not
   * negative; a negative size wraps round to a count no vector can hold.
   * For a non-negative size the count is the truncating quotient.
   */
  lemma ElementCountFits(size: int32, kind: Kind)
    ensures ElementCount(size, kind) <= MaxElements(kind) <==> size >= 0
    ensures size >= 0 ==> ElementCount(size, kind) == size / RecordSize(kind)
  {
    match kind
    case Things =>
    case Linedefs =>
    case Sidedefs =>
    case Vertexes =>
    case Sectors =>
  }

  /** The bytes a lump holds for `count` records of `kind`. */
  function LumpBytes(lump: LumpEntry, kind: Kind): nat
  {
    var count := ElementCount(lump.size, kind);
    match kind
    case Things => count * THING_SIZE
    case Linedefs => count * LINEDEF_SIZE
    case Sidedefs => count * SIDEDEF_SIZE
    case Vertexes => count * VERTEX_SIZE
    case Sectors => count * SECTOR_SIZE
  }

  /** Whole records of any of the five sizes. */
  lemma WholeRecords(count: nat)
    ensures (count * THING_SIZE) % THING_SIZE == 0 && (count * LINEDEF_SIZE) % LINEDEF_SIZE == 0
    ensures (count * SIDEDEF_SIZE) % SIDEDEF_SIZE == 0 && (count * VERTEX_SIZE) % VERTEX_SIZE == 0
    ensures (count * SECTOR_SIZE) % SECTOR_SIZE == 0
  {
  }

  /** Replacing one vector's bytes by a whole number of records keeps every vector well sized. */
  lemma SetKeepsWellSized(images: Images, kind: Kind, count: nat, img: seq<byte>)
    requires |img| == count * RecordSize(kind)
    ensures images.WellSized() ==> images.Set(kind, img).WellSized()
  {
    WholeRecords(count);
    match kind
    case Things => assert images.Set(kind, img) == images.(things := img);
    case Linedefs => assert images.Set(kind, img) == images.(linedefs := img);
    case Sidedefs => assert images.Set(kind, img) == images.(sidedefs := img);
    case Vertexes => assert images.Set(kind, img) == images.(vertexes := img);
    case Sectors => assert images.Set(kind, img) == images.(sectors := img);
  }

  /** A lump's byte count is its element count times the record size. */
  lemma LumpBytesIsWhole(lump: LumpEntry, kind: Kind)
    ensures LumpBytes(lump, kind) == ElementCount(lump.size, kind) * RecordSize(kind)
  {
    match kind
    case Things =>
    case Linedefs =>
    case Sidedefs =>
    case Vertexes =>
    case Sectors =>
  }

  /** The lump's records lie wholly inside the file. */
  predicate InFile(lump: LumpEntry, kind: Kind, data: seq<byte>)
  {
    lump.offset >= 0 && lump.offset + LumpBytes(lump, kind) <= |data|
  }

  /**
   * What a vector holds once `lump` has been read into it: exactly
   * `size / sizeof(T)` records' worth of bytes and, when the lump lies inside
   * the file, precisely the lump's bytes.
   */
  predicate LoadedFrom(img: seq<byte>, lump: LumpEntry, kind: Kind, data: seq<byte>)
  {
    && lump.size >= 0
    && |img| == LumpBytes(lump, kind)
    && (InFile(lump, kind, data) ==> img == data[lump.offset..lump.offset + LumpBytes(lump, kind)])
  }

  /**
   * `lump.load_as_vector(file, keyword, elements)`. On a match the vector is
   * resized to `size / sizeof(T)` and read from the lump's offset; otherwise
   * it returns false and nothing changes. A matching lump with a negative
   * size makes the resize throw.
   */
  function LoadAsVector(lump: LumpEntry, keyword: seq<byte>, kind: Kind, ld: Loading): (r: Result<(bool, Loading)>)
    ensures !Matches(keyword, lump) ==> r == Ok((false, ld))
    ensures Matches(keyword, lump) ==> (r.Err? <==> lump.size < 0)
    ensures r.Ok? ==> r.value.0 == Matches(keyword, lump)
    ensures r.Ok? ==> r.value.1.file.data == ld.file.data
    ensures r.Ok? ==> forall other :: other != kind ==> r.value.1.images.Get(other) == ld.images.Get(other)
    ensures r.Ok? && r.value.0 ==> LoadedFrom(r.value.1.images.Get(kind), lump, kind, ld.file.data)
    ensures r.Ok? && ld.images.WellSized() ==> r.value.1.images.WellSized()
  {
    if Matches(keyword, lump) then
      var count := ElementCount(lump.size, kind);
      ElementCountFits(lump.size, kind);
      if count > MaxElements(kind) then
        Err(LengthError)
      else
        var resized := Resize(ld.images.Get(kind), LumpBytes(lump, kind));
        var read := Read(Seek(ld.file, lump.offset), resized);
        var images := ld.images.Set(kind, read.1);
        LumpBytesIsWhole(lump, kind);
        SetKeepsWellSized(ld.images, kind, count, read.1);
        Ok((true, Loading(read.0, images)))
    else
      Ok((false, ld))
  }

  /** The lump matches some keyword but has a negative size: reading it terminates the program. */
  predicate Aborts(lump: LumpEntry)
  {
    lump.size < 0 && exists kind :: Matches(Keyword(kind), lump)
  }

  /** Offers one lump to each vector in `kinds` in turn. */
  function LoadKinds(lump: LumpEntry, kinds: seq<Kind>, ld: Loading): (r: Result<Loading>)
    ensures r.Err? <==> lump.size < 0 && exists kind :: kind in kinds && Matches(Keyword(kind), lump)
    ensures r.Ok? ==> r.value.file.data == ld.file.data
    ensures r.Ok? && ld.images.WellSized() ==> r.value.images.WellSized()
    decreases |kinds|
  {
    if kinds == [] then Ok(ld)
    else
      match LoadAsVector(lump, Keyword(kinds[0]), kinds[0], ld)
      case Err(e) => Err(e)
      case Ok(step) =>
        assert forall kind :: kind in kinds <==> kind == kinds[0] || kind in kinds[1..];
        LoadKinds(lump, kinds[1..], step.1)
  }

  /**
   * After offering a lump to the vectors in `kinds`, the vector of `kind`
   * holds that lump's bytes if it was offered and matched, and is untouched
   * otherwise.
   */
  lemma {:induction false} LoadKindsEffect(lump: LumpEntry, kinds: seq<Kind>, ld: Loading, kind: Kind)
    requires LoadKinds(lump, kinds, ld).Ok?
    ensures var next := LoadKinds(lump, kinds, ld).value;
      && (kind in kinds && Matches(Keyword(kind), lump) ==> LoadedFrom(next.images.Get(kind), lump, kind, ld.file.data))
      && (kind !in kinds || !Matches(Keyword(kind), lump) ==> next.images.Get(kind) == ld.images.Get(kind))
    decreases |kinds|
  {
    if kinds != [] {
      var step := LoadAsVector(lump, Keyword(kinds[0]), kinds[0], ld).value;
      LoadKindsEffect(lump, kinds[1..], step.1, kind);
      assert kind in kinds <==> kind == kinds[0] || kind in kinds[1..];
    }
  }

  lemma EveryKindOffered(kind: Kind)
    ensures kind in KINDS
  {
    match kind
    case Things => assert KINDS[0] == kind;
    case Linedefs => assert KINDS[1] == kind;
    case Sidedefs => assert KINDS[2] == kind;
    case Vertexes => assert KINDS[3] == kind;
    case Sectors => assert KINDS[4] == kind;
  }

  /**
   * The five `load_as_vector` calls made for one resource lump. The lump is
   * read into every vector whose keyword it matches and leaves the others
   * alone; it fails exactly when it matches a keyword with a negative size.
   */
  function LoadResources(lump: LumpEntry, ld: Loading): (r: Result<Loading>)
    ensures r.Err? <==> Aborts(lump)
    ensures r.Ok? ==> r.value.file.data == ld.file.data
    ensures r.Ok? && ld.images.WellSized() ==> r.value.images.WellSized()
  {
    forall kind ensures kind in KINDS {
      EveryKindOffered(kind);
    }
    LoadKinds(lump, KINDS, ld)
  }

  /** What one resource lump does to the vector of `kind`. */
  lemma LoadResourcesEffect(lump: LumpEntry, ld: Loading, kind: Kind)
    requires LoadResources(lump, ld).Ok?
    ensures var next := LoadResources(lump, ld).value;
      && (Matches(Keyword(kind), lump) ==> LoadedFrom(next.images.Get(kind), lump, kind, ld.file.data))
      && (!Matches(Keyword(kind), lump) ==> next.images.Get(kind) == ld.images.Get(kind))
  {
    EveryKindOffered(kind);
    LoadKindsEffect(lump, KINDS, ld, kind);
  }

  /**
   * The resource lumps read in directory order. Reading fails exactly when
   * one of them aborts; otherwise every vector holds the bytes of the last
   * lump that matched its keyword, or what it held before if none did.
   */
  function FoldLumps(lumps: seq<LumpEntry>, ld: Loading): (r: Result<Loading>)
    ensures r.Err? <==> SomeAborts(lumps)
    ensures r.Ok? ==> r.value.file.data == ld.file.data
    ensures r.Ok? && ld.images.WellSized() ==> r.value.images.WellSized()
  {
    FoldLumpsFacts(lumps, ld);
    FoldWith(LoadResources, lumps, ld)
  }

  lemma {:induction false} FoldLumpsFacts(lumps: seq<LumpEntry>, ld: Loading)
    ensures var r := FoldWith(LoadResources, lumps, ld);
      && (r.Err? <==> SomeAborts(lumps))
      && (r.Ok? ==> r.value.file.data == ld.file.data)
      && (r.Ok? && ld.images.WellSized() ==> r.value.images.WellSized())
    decreases |lumps|
  {
    if lumps != [] {
      var step := LoadResources(lumps[0], ld);
      if step.Ok? {
        FoldLumpsFacts(lumps[1..], step.value);
        assert SomeAborts(lumps) <==> Aborts(lumps[0]) || SomeAborts(lumps[1..]) by {
          if SomeAborts(lumps[1..]) {
            var j :| 0 <= j < |lumps[1..]| && Aborts(lumps[1..][j]);
            assert Aborts(lumps[j + 1]);
          }
          if SomeAborts(lumps) {
            var j :| 0 <= j < |lumps| && Aborts(lumps[j]);
            assert j == 0 || Aborts(lumps[1..][j - 1]);
          }
        }
      } else {
        assert Aborts(lumps[0]);
      }
    }
  }

  /** Lumps that never match `kind`'s keyword leave that vector as it was. */
  lemma {:induction false} FoldLumpsUntouched(lumps: seq<LumpEntry>, ld: Loading, kind: Kind)
    requires forall j :: 0 <= j < |lumps| ==> !Matches(Keyword(kind), lumps[j])
    requires FoldLumps(lumps, ld).Ok?
    ensures FoldLumps(lumps, ld).value.images.Get(kind) == ld.images.Get(kind)
    decreases |lumps|
  {
    if lumps != [] {
      var next := LoadResources(lumps[0], ld).value;
      LoadResourcesEffect(lumps[0], ld, kind);
      FoldLumpsUntouched(lumps[1..], next, kind);
      assert FoldLumps(lumps, ld) == FoldLumps(lumps[1..], next);
    }
  }

  /** The last lump matching `kind`'s keyword determines that vector: last match wins. */
  lemma {:induction false} FoldLumpsLastMatch(lumps: seq<LumpEntry>, ld: Loading, kind: Kind, k: nat)
    requires k < |lumps| && Matches(Keyword(kind), lumps[k])
    requires forall j :: k < j < |lumps| ==> !Matches(Keyword(kind), lumps[j])
    requires FoldLumps(lumps, ld).Ok?
    ensures LoadedFrom(FoldLumps(lumps, ld).value.images.Get(kind), lumps[k], kind, ld.file.data)
    decreases |lumps|
  {
    var next := LoadResources(lumps[0], ld).value;
    LoadResourcesEffect(lumps[0], ld, kind);
    assert FoldLumps(lumps, ld) == FoldLumps(lumps[1..], next);
    if k == 0 {
      FoldLumpsUntouched(lumps[1..], next, kind);
    } else {
      FoldLumpsLastMatch(lumps[1..], next, kind, k - 1);
    }
  }

  // ---------------------------------------------------------------------
  // map_c::map_c
  // ---------------------------------------------------------------------

  /** The index of the first entry from `from` on whose name equals `name` in 8 bytes, or `|dir|` if none does. */
  function FirstMarker(dir: seq<LumpEntry>, name: seq<byte>, from: nat): (m: nat)
    requires from <= |dir|
    ensures from <= m <= |dir|
    ensures m < |dir| ==> StrNEqual(name, dir[m].name, NAME_SIZE)
    ensures forall i :: from <= i < m ==> !StrNEqual(name, dir[i].name, NAME_SIZE)
    decreases |dir| - from
  {
    if from == |dir| then |dir|
    else if StrNEqual(name, dir[from].name, NAME_SIZE) then from
    else FirstMarker(dir, name, from + 1)
  }

  // ---------------------------------------------------------------------
  // The shape of the scan
  // ---------------------------------------------------------------------

  /** What the scan does with one resource lump; the loop-shape lemmas hold whatever it is. */
  type LumpStep = (LumpEntry, Loading) -> Result<Loading>

  /** Hands each lump to `load` in order, stopping at the first failure. */
  function FoldWith(load: LumpStep, lumps: seq<LumpEntry>, ld: Loading): Result<Loading>
    decreases |lumps|
  {
    if lumps == [] then Ok(ld)
    else
      match load(lumps[0], ld)
      case Err(e) => Err(e)
      case Ok(next) => FoldWith(load, lumps[1..], next)
  }

  /**
   * The lookahead loop as written, `for (int j = 1; j < 8; ++i)`: it is `i`
   * that advances, so `j` stays 1 and the loop reads `dir[i + 1]`, then
   * `dir[i + 2]`, and so on until it runs off the end of the directory.
   */
  function ScanAsWritten(load: LumpStep, dir: seq<LumpEntry>, i: nat, ld: Loading): Result<Loading>
    decreases |dir| - i
  {
    var j := 1;
    if i + j >= |dir| then Ok(ld)
    else
      match load(dir[i + j], ld)
      case Err(e) => Err(e)
      case Ok(next) => ScanAsWritten(load, dir, i + 1, next)
  }

  /** The loop as written reads every entry after the marker, in order, to the end of the directory. */
  lemma {:induction false} ScanAsWrittenReadsToEnd(load: LumpStep, dir: seq<LumpEntry>, i: nat, ld: Loading)
    requires i < |dir|
    ensures ScanAsWritten(load, dir, i, ld) == FoldWith(load, dir[i + 1..], ld)
    decreases |dir| - i
  {
    if i + 1 < |dir| {
      var lumps := dir[i + 1..];
      assert lumps[0] == dir[i + 1] && lumps[1..] == dir[i + 2..];
      var step := load(dir[i + 1], ld);
      if step.Ok? {
        ScanAsWrittenReadsToEnd(load, dir, i + 1, step.value);
      }
    }
  }

  /** How many entries after the marker the loop header `j = 1 .. 7` describes. */
  const LOOKAHEAD: nat := 7

  /** The lookahead with `j` advancing: entries `i + 1` to `i + 7`, stopping at the end of the directory. */
  function ScanWindow(load: LumpStep, dir: seq<LumpEntry>, i: nat, j: nat, ld: Loading): Result<Loading>
    decreases LOOKAHEAD + 1 - j
  {
    if j > LOOKAHEAD then Ok(ld)
    else if i + j >= |dir| then Ok(ld)
    else
      match load(dir[i + j], ld)
      case Err(e) => Err(e)
      case Ok(next) => ScanWindow(load, dir, i, j + 1, next)
  }

  /** The end of the window after entry `i`. */
  function WindowEnd(dir: seq<LumpEntry>, i: nat): nat
  {
    if i + LOOKAHEAD + 1 <= |dir| then i + LOOKAHEAD + 1 else |dir|
  }

  /** The windowed loop reads exactly the (at most seven) entries after the marker, in order. */
  lemma {:induction false} ScanWindowReadsWindow(load: LumpStep, dir: seq<LumpEntry>, i: nat, j: nat, ld: Loading)
    requires i < |dir| && 1 <= j <= LOOKAHEAD + 1
    ensures i + j <= WindowEnd(dir, i) ==>
      ScanWindow(load, dir, i, j, ld) == FoldWith(load, dir[i + j..WindowEnd(dir, i)], ld)
    decreases LOOKAHEAD + 1 - j
  {
    var end := WindowEnd(dir, i);
    if i + j < end {
      var lumps := dir[i + j..end];
      assert lumps[0] == dir[i + j] && lumps[1..] == dir[i + j + 1..end];
      var step := load(dir[i + j], ld);
      if step.Ok? {
        ScanWindowReadsWindow(load, dir, i, j + 1, step.value);
      }
    } else if i + j == end {
      assert dir[i + j..end] == [];
    }
  }

  /** The map built from the five vectors once loading has finished. */
  function Decoded(images: Images): (m: MapData)
    requires images.WellSized()
    ensures m.loaded
  {
    assert |images.Get(Things)| % THING_SIZE == 0 && |images.Get(Linedefs)| % LINEDEF_SIZE == 0;
    assert |images.Get(Sidedefs)| % SIDEDEF_SIZE == 0 && |images.Get(Vertexes)| % VERTEX_SIZE == 0;
    assert |images.Get(Sectors)| % SECTOR_SIZE == 0;
    MapData(true, DecodeThings(images.things), DecodeLinedefs(images.linedefs),
      DecodeSidedefs(images.sidedefs), DecodeVertexes(images.vertexes), DecodeSectors(images.sectors))
  }

  /** The entries the loader examines are those after the first marker through the end of the directory. */
  function Examined(wad: Archive, name: seq<byte>): seq<LumpEntry>
  {
    var m := FirstMarker(wad.directory, name, 0);
    if m < |wad.directory| then wad.directory[m + 1..] else []
  }

  /** Some directory entry is named `name`, compared in 8 bytes. */
  predicate HasMarker(dir: seq<LumpEntry>, name: seq<byte>)
  {
    exists i :: 0 <= i < |dir| && StrNEqual(name, dir[i].name, NAME_SIZE)
  }

  lemma FirstMarkerFinds(dir: seq<LumpEntry>, name: seq<byte>)
    ensures FirstMarker(dir, name, 0) < |dir| <==> HasMarker(dir, name)
  {
    var m := FirstMarker(dir, name, 0);
    if HasMarker(dir, name) {
      var i :| 0 <= i < |dir| && StrNEqual(name, dir[i].name, NAME_SIZE);
      assert m <= i;
    }
  }

  /** The state the scan starts from: the archive's stream and five empty vectors. */
  function Start(wad: Archive): Loading
  {
    Loading(wad.file, NO_IMAGES)
  }

  /** The map built from the vectors once the scan has finished, or the error that ended it. */
  function Finish(r: Result<Loading>): (m: Result<MapData>)
    requires r.Ok? ==> r.value.images.WellSized()
    ensures m.Err? <==> r.Err?
    ensures m.Ok? ==> m.value.loaded
  {
    match r
    case Err(e) => Err(e)
    case Ok(ld) => Ok(Decoded(ld.images))
  }

  /**
   * `map_c(wad, map_name)` as written. An invalid archive, or one with no
   * entry named `map_name`, gives an unloaded, empty map. Otherwise the
   * entries read are every one after the first marker, to the end of the
   * directory, in order.
   */
  function LoadMap(wad: Archive, name: seq<byte>): (r: Result<MapData>)
    ensures r == if wad.valid && HasMarker(wad.directory, name) then Finish(FoldLumps(Examined(wad, name), Start(wad)))
                 else Ok(NOT_LOADED)
  {
    var m := FirstMarker(wad.directory, name, 0);
    FirstMarkerFinds(wad.directory, name);
    if !wad.valid || m == |wad.directory| then Ok(NOT_LOADED)
    else
      ScanAsWrittenReadsToEnd(LoadResources, wad.directory, m, Start(wad));
      assert FoldLumps(Examined(wad, name), Start(wad)).Ok? ==> Start(wad).images.WellSized();
      Finish(ScanAsWritten(LoadResources, wad.directory, m, Start(wad)))
  }

  /** Some lump in the sequence aborts the load. */
  predicate SomeAborts(lumps: seq<LumpEntry>)
  {
    exists j :: 0 <= j < |lumps| && Aborts(lumps[j])
  }

  /**
   * The map is loaded exactly when the archive is valid and has the marker,
   * unless one of the entries after the marker matches a keyword with a
   * negative size, which ends the program instead.
   */
  lemma LoadMapOutcome(wad: Archive, name: seq<byte>)
    ensures LoadMap(wad, name).Err? <==> wad.valid && SomeAborts(Examined(wad, name))
    ensures LoadMap(wad, name).Ok? ==>
      (LoadMap(wad, name).value.loaded <==> wad.valid && HasMarker(wad.directory, name))
  {
    FirstMarkerFinds(wad.directory, name);
  }

  /** A lone marker with nothing after it still counts as a loaded (empty) map. */
  lemma LoneMarkerLoads(wad: Archive, name: seq<byte>)
    requires wad.valid && |wad.directory| > 0
    requires StrNEqual(name, wad.directory[|wad.directory| - 1].name, NAME_SIZE)
    requires forall i :: 0 <= i < |wad.directory| - 1 ==> !StrNEqual(name, wad.directory[i].name, NAME_SIZE)
    ensures LoadMap(wad, name) == Ok(MapData(true, [], [], [], [], []))
  {
    assert FirstMarker(wad.directory, name, 0) == |wad.directory| - 1;
    assert Examined(wad, name) == [];
  }

  // ---------------------------------------------------------------------
  // What the loaded records are
  // ---------------------------------------------------------------------

  /** The records of `kind` in a map, and their number. */
  function Count(m: MapData, kind: Kind): nat
  {
    match kind
    case Things => |m.things|
    case Linedefs => |m.linedefs|
    case Sidedefs => |m.sidedefs|
    case Vertexes => |m.vertices|
    case Sectors => |m.sectors|
  }

  /** The map's records of `kind` are those the bytes `img` decode to. */
  predicate HoldsRecords(m: MapData, kind: Kind, img: seq<byte>)
  {
    match kind
    case Things => |img| % THING_SIZE == 0 && m.things == DecodeThings(img)
    case Linedefs => |img| % LINEDEF_SIZE == 0 && m.linedefs == DecodeLinedefs(img)
    case Sidedefs => |img| % SIDEDEF_SIZE == 0 && m.sidedefs == DecodeSidedefs(img)
    case Vertexes => |img| % VERTEX_SIZE == 0 && m.vertices == DecodeVertexes(img)
    case Sectors => |img| % SECTOR_SIZE == 0 && m.sectors == DecodeSectors(img)
  }

  /** A vector read from `lump` decodes to `size / sizeof(T)` records, the ones its bytes hold. */
  lemma DecodedHolds(images: Images, kind: Kind, lump: LumpEntry)
    requires images.WellSized() && |images.Get(kind)| == LumpBytes(lump, kind)
    ensures HoldsRecords(Decoded(images), kind, images.Get(kind))
    ensures Count(Decoded(images), kind) == ElementCount(lump.size, kind)
  {
    match kind
    case Things =>
    case Linedefs =>
    case Sidedefs =>
    case Vertexes =>
    case Sectors =>
  }

  /**
   * Last match wins: when `k` is the last examined entry whose name matches
   * `kind`'s keyword, the map holds `size / sizeof(T)` records of that kind
   * and, if the lump lies inside the file, exactly the records its bytes
   * decode to.
   */
  lemma LoadMapLastMatch(wad: Archive, name: seq<byte>, kind: Kind, k: nat)
    requires wad.valid && !SomeAborts(Examined(wad, name))
    requires k < |Examined(wad, name)| && Matches(Keyword(kind), Examined(wad, name)[k])
    requires forall j :: k < j < |Examined(wad, name)| ==> !Matches(Keyword(kind), Examined(wad, name)[j])
    ensures var lump := Examined(wad, name)[k];
      && LoadMap(wad, name).Ok? && LoadMap(wad, name).value.loaded
      && Count(LoadMap(wad, name).value, kind) == lump.size / RecordSize(kind)
      && (InFile(lump, kind, wad.file.data) ==>
            HoldsRecords(LoadMap(wad, name).value, kind,
              wad.file.data[lump.offset..lump.offset + LumpBytes(lump, kind)]))
  {
    var lumps := Examined(wad, name);
    var lump := lumps[k];
    var start := Start(wad);
    FirstMarkerFinds(wad.directory, name);
    LoadMapOutcome(wad, name);
    var ld := FoldLumps(lumps, start).value;
    FoldLumpsLastMatch(lumps, start, kind, k);
    DecodedHolds(ld.images, kind, lump);
    ElementCountFits(lump.size, kind);
  }

  /** A kind whose keyword no examined entry matches stays empty in the loaded map. */
  lemma LoadMapNoMatch(wad: Archive, name: seq<byte>, kind: Kind)
    requires LoadMap(wad, name).Ok?
    requires forall j :: 0 <= j < |Examined(wad, name)| ==> !Matches(Keyword(kind), Examined(wad, name)[j])
    ensures Count(LoadMap(wad, name).value, kind) == 0
  {
    LoadMapOutcome(wad, name);
    if LoadMap(wad, name).value.loaded {
      var start := Start(wad);
      var ld := FoldLumps(Examined(wad, name), start).value;
      FoldLumpsUntouched(Examined(wad, name), start, kind);
      assert ld.images.Get(kind) == [];
    }
  }

  // ---------------------------------------------------------------------
  // The lookahead the loop header describes
  // ---------------------------------------------------------------------

  /** The entries the windowed loader examines. */
  function ExaminedWindow(wad: Archive, name: seq<byte>): seq<LumpEntry>
  {
    var m := FirstMarker(wad.directory, name, 0);
    if m < |wad.directory| then wad.directory[m + 1..WindowEnd(wad.directory, m)] else []
  }

  /**
   * The loader with the lookahead the loop header describes: it behaves as
   * the code does except that only the (at most seven) entries after the
   * marker are read.
   */
  function LoadMapWindowed(wad: Archive, name: seq<byte>): (r: Result<MapData>)
    ensures r == if wad.valid && HasMarker(wad.directory, name) then Finish(FoldLumps(ExaminedWindow(wad, name), Start(wad)))
                 else Ok(NOT_LOADED)
  {
    var m := FirstMarker(wad.directory, name, 0);
    FirstMarkerFinds(wad.directory, name);
    if !wad.valid || m == |wad.directory| then Ok(NOT_LOADED)
    else
      ScanWindowReadsWindow(LoadResources, wad.directory, m, 1, Start(wad));
      assert FoldLumps(ExaminedWindow(wad, name), Start(wad)).Ok? ==> Start(wad).images.WellSized();
      Finish(ScanWindow(LoadResources, wad.directory, m, 1, Start(wad)))
  }

  /** The windowed loader reads at most seven entries, and fails exactly when one of those aborts. */
  lemma LoadMapWindowedOutcome(wad: Archive, name: seq<byte>)
    ensures |ExaminedWindow(wad, name)| <= LOOKAHEAD
    ensures LoadMapWindowed(wad, name).Err? <==> wad.valid && SomeAborts(ExaminedWindow(wad, name))
    ensures LoadMapWindowed(wad, name).Ok? ==>
      (LoadMapWindowed(wad, name).value.loaded <==> wad.valid && HasMarker(wad.directory, name))
  {
    FirstMarkerFinds(wad.directory, name);
  }

  /**
   * Whatever follows the window in the directory (another map's lumps, say)
   * never changes what the windowed loader produces.
   */
  lemma WindowIgnoresLaterEntries(wad: Archive, name: seq<byte>, later: seq<LumpEntry>)
    requires FirstMarker(wad.directory, name, 0) + LOOKAHEAD + 1 <= |wad.directory|
    ensures var m := FirstMarker(wad.directory, name, 0);
      var cut := wad.(directory := wad.directory[..m + LOOKAHEAD + 1] + later);
      LoadMapWindowed(cut, name) == LoadMapWindowed(wad, name)
  {
    var m := FirstMarker(wad.directory, name, 0);
    var dir' := wad.directory[..m + LOOKAHEAD + 1] + later;
    var cut := wad.(directory := dir');
    FirstMarkerPrefix(wad.directory, dir', name, m);
    FirstMarkerFinds(wad.directory, name);
    FirstMarkerFinds(dir', name);
    assert ExaminedWindow(cut, name) == ExaminedWindow(wad, name);
    assert Start(cut) == Start(wad);
  }

  lemma FirstMarkerPrefix(dir: seq<LumpEntry>, dir': seq<LumpEntry>, name: seq<byte>, m: nat)
    requires m < |dir| && m < |dir'| && m == FirstMarker(dir, name, 0)
    requires forall i :: 0 <= i <= m ==> dir'[i] == dir[i]
    ensures FirstMarker(dir', name, 0) == m
  {
  }

  /** A kind whose keyword none of the window's entries matches stays empty in the windowed map. */
  lemma LoadMapWindowedNoMatch(wad: Archive, name: seq<byte>, kind: Kind)
    requires LoadMapWindowed(wad, name).Ok?
    requires forall j :: 0 <= j < |ExaminedWindow(wad, name)| ==> !Matches(Keyword(kind), ExaminedWindow(wad, name)[j])
    ensures Count(LoadMapWindowed(wad, name).value, kind) == 0
  {
    LoadMapWindowedOutcome(wad, name);
    if LoadMapWindowed(wad, name).value.loaded {
      var start := Start(wad);
      var ld := FoldLumps(ExaminedWindow(wad, name), start).value;
      FoldLumpsUntouched(ExaminedWindow(wad, name), start, kind);
      assert ld.images.Get(kind) == [];
    }
  }

  // ---------------------------------------------------------------------
  // A later map leaking into an earlier one
  // ---------------------------------------------------------------------

  /** A name field holding a C string of at most 8 bytes, padded with NULs. */
  function NameField(s: seq<byte>): (field: seq<byte>)
    requires |s| <= NAME_SIZE
    ensures |field| == NAME_SIZE
  {
    s + Zeros(NAME_SIZE - |s|)
  }

  /** "MAP01" */
  const MAP01: seq<byte> := [0x4D, 0x41, 0x50, 0x30, 0x31]
  /** "MAP02" */
  const MAP02: seq<byte> := [0x4D, 0x41, 0x50, 0x30, 0x32]

  /** The one thing stored in the example file. */
  const LEAKED_THING := Thing(64, -32, 90, 1, 7)

  /**
   * The directory of the example: marker MAP01 and seven empty, unnamed lumps
   * belonging to it, then marker MAP02 and its THINGS lump holding one thing
   * at offset 12.
   */
  function TwoMapsDirectory(): (dir: seq<LumpEntry>)
    ensures |dir| == 10 && NamesWellFormed(dir)
  {
    var filler := LumpEntry(0, 0, Zeros(NAME_SIZE));
    [LumpEntry(0, 0, NameField(MAP01)), filler, filler, filler, filler, filler, filler, filler,
     LumpEntry(0, 0, NameField(MAP02)), LumpEntry(HEADER_SIZE, THING_SIZE, NameField(Keyword(Things)))]
  }

  function TwoMapsFile(): seq<byte>
  {
    BuildFile(PWAD, EncodeThing(LEAKED_THING), TwoMapsDirectory())
  }

  /** How the example's names compare: MAP01 is the first entry, only the last one is a THINGS lump, none aborts. */
  lemma TwoMapsNames()
    ensures LeakShape(TwoMapsDirectory(), MAP01)
  {
    var dir := TwoMapsDirectory();
    StrNEqualCString(MAP01, dir[0].name, NAME_SIZE);
    assert dir[0].name[..5] == MAP01;
    KeywordMatch(Things, dir[9]);
    assert dir[9].name[..6] == Keyword(Things);
    forall j | 0 <= j < 9
      ensures !Matches(Keyword(Things), dir[j])
    {
      KeywordMatch(Things, dir[j]);
      assert dir[j].name[0] != Keyword(Things)[0];
    }
  }

  /** The example file opens as a valid archive with its directory, and its thing lies at offset 12. */
  lemma TwoMapsFileOpens()
    ensures var wad := Open(Contents(TwoMapsFile()));
      && wad.valid && wad.directory == TwoMapsDirectory()
      && InFile(wad.directory[9], Things, wad.file.data)
      && wad.file.data[wad.directory[9].offset..wad.directory[9].offset + LumpBytes(wad.directory[9], Things)]
         == EncodeThing(LEAKED_THING)
  {
    OpenWellFormed(PWAD, EncodeThing(LEAKED_THING), TwoMapsDirectory());
    var lump := TwoMapsDirectory()[9];
    assert lump.offset == HEADER_SIZE && LumpBytes(lump, Things) == THING_SIZE;
  }

  /** The shape of the example's directory, stated without its literal contents. */
  predicate LeakShape(dir: seq<LumpEntry>, name: seq<byte>)
  {
    && |dir| == 10 && FirstMarker(dir, name, 0) == 0
    && Matches(Keyword(Things), dir[9])
    && (forall j :: 0 <= j < 9 ==> !Matches(Keyword(Things), dir[j]))
    && (forall j :: 0 <= j < 10 ==> !Aborts(dir[j]))
  }

  /** As written, a directory of that shape loads the THINGS lump at index 9 as the map's things. */
  lemma LeakAsWritten(wad: Archive, name: seq<byte>)
    requires wad.valid && LeakShape(wad.directory, name)
    requires InFile(wad.directory[9], Things, wad.file.data)
    ensures var r, lump := LoadMap(wad, name), wad.directory[9];
      && r.Ok? && r.value.loaded
      && HoldsRecords(r.value, Things, wad.file.data[lump.offset..lump.offset + LumpBytes(lump, Things)])
  {
    var dir := wad.directory;
    FirstMarkerFinds(dir, name);
    var examined := Examined(wad, name);
    assert examined == dir[1..];
    assert !SomeAborts(examined);
    LoadMapOutcome(wad, name);
    LoadMapLastMatch(wad, name, Things, 8);
  }

  /** With the seven-entry lookahead, a directory of that shape gives the map no things. */
  lemma NoLeakWindowed(wad: Archive, name: seq<byte>)
    requires wad.valid && LeakShape(wad.directory, name)
    ensures LoadMapWindowed(wad, name).Ok? && LoadMapWindowed(wad, name).value.loaded
    ensures LoadMapWindowed(wad, name).value.things == []
  {
    var dir := wad.directory;
    FirstMarkerFinds(dir, name);
    var window := ExaminedWindow(wad, name);
    assert window == dir[1..8];
    assert !SomeAborts(window);
    LoadMapWindowedOutcome(wad, name);
    LoadMapWindowedNoMatch(wad, name, Things);
  }

  lemma LeakedThingDecodes()
    ensures DecodeThings(EncodeThing(LEAKED_THING)) == [LEAKED_THING]
  {
    var payload := EncodeThing(LEAKED_THING);
    assert payload[0..THING_SIZE] == payload;
  }

  /**
   * Loading MAP01 from a PWAD whose MAP02 follows it: the code as written
   * examines MAP02's lumps too and hands back MAP02's thing as MAP01's, while
   * the seven-entry lookahead leaves MAP01 without things.
   */
  lemma LaterMapLeaksIn()
    ensures var wad := Open(Contents(TwoMapsFile()));
      && LoadMap(wad, MAP01).Ok? && LoadMap(wad, MAP01).value.loaded
      && LoadMap(wad, MAP01).value.things == [LEAKED_THING]
      && LoadMapWindowed(wad, MAP01).Ok? && LoadMapWindowed(wad, MAP01).value.loaded
      && LoadMapWindowed(wad, MAP01).value.things == []
  {
    TwoMapsFileOpens();
    TwoMapsNames();
    LeakedThingDecodes();
    LeakFor(Open(Contents(TwoMapsFile())));
  }

  lemma LeakFor(wad: Archive)
    requires wad.valid && LeakShape(wad.directory, MAP01)
    requires InFile(wad.directory[9], Things, wad.file.data)
    requires wad.file.data[wad.directory[9].offset..wad.directory[9].offset + LumpBytes(wad.directory[9], Things)]
      == EncodeThing(LEAKED_THING)
    requires DecodeThings(EncodeThing(LEAKED_THING)) == [LEAKED_THING]
    ensures LoadMap(wad, MAP01).Ok? && LoadMap(wad, MAP01).value.loaded
    ensures LoadMap(wad, MAP01).value.things == [LEAKED_THING]
    ensures LoadMapWindowed(wad, MAP01).Ok? && LoadMapWindowed(wad, MAP01).value.loaded
    ensures LoadMapWindowed(wad, MAP01).value.things == []
  {
    LeakAsWritten(wad, MAP01);
    NoLeakWindowed(wad, MAP01);
  }
}
