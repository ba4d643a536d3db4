/**
 * The WAD archive reader: a 12-byte header (4-byte type tag, lump count,
 * directory offset) followed somewhere in the file by a directory of
 * 16-byte lump entries (offset, size, 8-byte name).
 */
module Wad {
  import opened Bytes
  import opened Stream
  import opened Seqs

  const HEADER_SIZE: nat := 12
  const ENTRY_SIZE: nat := 16
  const NAME_SIZE: nat := 8

  /** "PWAD" */
  const PWAD: seq<byte> := [0x50, 0x57, 0x41, 0x44]
  /** "IWAD" */
  const IWAD: seq<byte> := [0x49, 0x57, 0x41, 0x44]

  datatype Header = Header(tag: seq<byte>, lumpCount: int32, directoryOffset: int32)

  /** One directory record; `name` is the raw 8-byte field, not necessarily NUL-terminated. */
  datatype LumpEntry = LumpEntry(offset: int32, size: int32, name: seq<byte>)

  /** What `fopen(path, "rb")` gives: nothing, or a stream over the file's bytes. */
  datatype Source = CannotOpen | Contents(data: seq<byte>)

  /**
   * An archive after construction: the validity flag, the stream (left where
   * the constructor's last read put it), the header as read, and the directory.
   */
  datatype Archive = Archive(valid: bool, file: File, header: Header, directory: seq<LumpEntry>)

  // ---------------------------------------------------------------------
  // Wire layout
  // ---------------------------------------------------------------------

  function DecodeHeader(bs: seq<byte>): (h: Header)
    requires |bs| == HEADER_SIZE
    ensures |h.tag| == 4
  {
    Header(bs[0..4], DecodeInt32(bs[4..8]), DecodeInt32(bs[8..12]))
  }

  /** Lays a header out as the file stores it; reading it back gives the header. */
  function EncodeHeader(h: Header): (bs: seq<byte>)
    requires |h.tag| == 4
    ensures |bs| == HEADER_SIZE
    ensures DecodeHeader(bs) == h
  {
    var bs := h.tag + EncodeInt32(h.lumpCount) + EncodeInt32(h.directoryOffset);
    assert bs[0..4] == h.tag && bs[4..8] == EncodeInt32(h.lumpCount) && bs[8..12] == EncodeInt32(h.directoryOffset);
    bs
  }

  function DecodeEntry(bs: seq<byte>): (e: LumpEntry)
    requires |bs| == ENTRY_SIZE
    ensures |e.name| == NAME_SIZE
  {
    LumpEntry(DecodeInt32(bs[0..4]), DecodeInt32(bs[4..8]), bs[8..16])
  }

  /** Lays a directory entry out as the file stores it; reading it back gives the entry. */
  function EncodeEntry(e: LumpEntry): (bs: seq<byte>)
    requires |e.name| == NAME_SIZE
    ensures |bs| == ENTRY_SIZE
    ensures DecodeEntry(bs) == e
  {
    var bs := EncodeInt32(e.offset) + EncodeInt32(e.size) + e.name;
    assert bs[0..4] == EncodeInt32(e.offset) && bs[4..8] == EncodeInt32(e.size) && bs[8..16] == e.name;
    bs
  }

  /** The entry an all-zero record decodes to: what a directory slot past the end of the file holds. */
  const ZERO_ENTRY: LumpEntry := LumpEntry(0, 0, Zeros(NAME_SIZE))

  /** Cuts a byte image into consecutive 16-byte records and decodes each. */
  function DecodeDirectory(bs: seq<byte>): (dir: seq<LumpEntry>)
    requires |bs| % ENTRY_SIZE == 0
    ensures |dir| == |bs| / ENTRY_SIZE
    ensures forall k :: 0 <= k < |dir| ==> |dir[k].name| == NAME_SIZE
  {
    seq(|bs| / ENTRY_SIZE, k requires 0 <= k < |bs| / ENTRY_SIZE =>
      DecodeEntry(bs[ENTRY_SIZE * k..ENTRY_SIZE * k + ENTRY_SIZE]))
  }

  predicate NamesWellFormed(entries: seq<LumpEntry>)
  {
    forall k :: 0 <= k < |entries| ==> |entries[k].name| == NAME_SIZE
  }

  function EncodeDirectory(entries: seq<LumpEntry>): (bs: seq<byte>)
    requires NamesWellFormed(entries)
    ensures |bs| == ENTRY_SIZE * |entries|
  {
    if entries == [] then [] else EncodeEntry(entries[0]) + EncodeDirectory(entries[1..])
  }

  lemma {:induction false} EncodeDirectoryRecord(entries: seq<LumpEntry>, k: nat)
    requires NamesWellFormed(entries) && k < |entries|
    ensures EncodeDirectory(entries)[ENTRY_SIZE * k..ENTRY_SIZE * k + ENTRY_SIZE] == EncodeEntry(entries[k])
  {
    var first := EncodeEntry(entries[0]);
    var rest := EncodeDirectory(entries[1..]);
    assert EncodeDirectory(entries) == first + rest;
    if k > 0 {
      EncodeDirectoryRecord(entries[1..], k - 1);
      var lo := ENTRY_SIZE * (k - 1);
      assert ENTRY_SIZE * k == |first| + lo;
      ConcatSliceRight(first, rest, lo, lo + ENTRY_SIZE);
    }
  }

  /** A directory written out record by record reads back as the same entries in the same order. */
  lemma DirectoryRoundTrip(entries: seq<LumpEntry>)
    requires NamesWellFormed(entries)
    ensures DecodeDirectory(EncodeDirectory(entries)) == entries
  {
    var dir := DecodeDirectory(EncodeDirectory(entries));
    forall k | 0 <= k < |entries|
      ensures dir[k] == entries[k]
    {
      EncodeDirectoryRecord(entries, k);
    }
  }

  // ---------------------------------------------------------------------
  // Construction
  // ---------------------------------------------------------------------

  /** `strncmp(type, "PWAD", 4) == 0 || strncmp(type, "IWAD", 4) == 0` */
  predicate AcceptedTag(tag: seq<byte>)
  {
    StrNEqual(tag, PWAD, 4) || StrNEqual(tag, IWAD, 4)
  }

  /** The tag test accepts exactly the two magic values. */
  lemma AcceptedTagIsMagic(tag: seq<byte>)
    requires |tag| == 4
    ensures AcceptedTag(tag) <==> tag == PWAD || tag == IWAD
  {
    StrNEqualFixed(tag, PWAD, 4);
    StrNEqualFixed(tag, IWAD, 4);
  }

  /**
   * `fread(&header, sizeof(header), 1, f)` on a freshly opened stream. The
   * header's storage holds no file bytes yet; a file shorter than 12 bytes
   * leaves the rest of it as zero here.
   */
  function ReadHeader(data: seq<byte>): (r: (File, Header))
    ensures r.0.data == data
    ensures |data| >= HEADER_SIZE ==> r.1 == DecodeHeader(data[..HEADER_SIZE]) && r.0.pos == HEADER_SIZE
    ensures |r.1.tag| == 4
  {
    var (f, bs) := Read(Opened(data), Zeros(HEADER_SIZE));
    (f, DecodeHeader(bs))
  }

  /**
   * The 16 bytes a zeroed record slot holds after `fread` copies the file from
   * offset `at` into it: the file's bytes while they last, then zeros. A record
   * wholly inside the file is its own bytes, one wholly past the end is all
   * zero, and one the end of the file cuts through is its head padded with zeros.
   */
  function RecordBytes(data: seq<byte>, at: nat): (bs: seq<byte>)
    ensures |bs| == ENTRY_SIZE
  {
    if at + ENTRY_SIZE <= |data| then data[at..at + ENTRY_SIZE]
    else if at >= |data| then Zeros(ENTRY_SIZE)
    else data[at..] + Zeros(at + ENTRY_SIZE - |data|)
  }

  /**
   * Each entry of `directory` decodes the file's bytes from its own 16-byte
   * record on, counting records from `start`; one that lies wholly past the
   * end of the file is all zero.
   */
  predicate DirectoryRead(directory: seq<LumpEntry>, data: seq<byte>, start: nat)
  {
    forall k :: 0 <= k < |directory| ==>
      directory[k] == DecodeEntry(RecordBytes(data, start + ENTRY_SIZE * k))
      && (start + ENTRY_SIZE * k >= |data| ==> directory[k] == ZERO_ENTRY)
  }

  /**
   * `directory.resize(count)` followed by `fseek` to `offset` and `fread` of
   * `count` records: the k-th entry decodes the file's bytes from the k-th
   * 16-byte record on, zero-padded where the file ends, and is all zero when
   * that record lies past the end of the file.
   */
  function ReadDirectory(f: File, offset: int32, count: nat): (r: (File, seq<LumpEntry>))
    ensures r.0.data == f.data
    ensures |r.1| == count && NamesWellFormed(r.1)
    ensures DirectoryRead(r.1, f.data, Seek(f, offset).pos)
  {
    var atDirectory := Seek(f, offset);
    var (afterDirectory, bs) := Read(atDirectory, Zeros(ENTRY_SIZE * count));
    ReadDirectoryEntries(atDirectory, count);
    (afterDirectory, DecodeDirectory(bs))
  }

  /** The records `fread` leaves in a zeroed directory of `count` entries, decoded one by one. */
  lemma ReadDirectoryEntries(f: File, count: nat)
    ensures DirectoryRead(DecodeDirectory(Read(f, Zeros(ENTRY_SIZE * count)).1), f.data, f.pos)
  {
    var directory := DecodeDirectory(Read(f, Zeros(ENTRY_SIZE * count)).1);
    forall k | 0 <= k < count
      ensures directory[k] == DecodeEntry(RecordBytes(f.data, f.pos + ENTRY_SIZE * k))
      ensures f.pos + ENTRY_SIZE * k >= |f.data| ==> directory[k] == ZERO_ENTRY
    {
      ReadDirectoryRecord(f, count, k);
      DecodeZeroEntry();
    }
  }

  lemma ReadDirectoryRecord(f: File, n: nat, k: nat)
    requires k < n
    ensures Read(f, Zeros(ENTRY_SIZE * n)).1[ENTRY_SIZE * k..ENTRY_SIZE * k + ENTRY_SIZE]
      == RecordBytes(f.data, f.pos + ENTRY_SIZE * k)
  {
    var bs := Read(f, Zeros(ENTRY_SIZE * n)).1;
    ReadOverlay(f, Zeros(ENTRY_SIZE * n));
    var slot := bs[ENTRY_SIZE * k..ENTRY_SIZE * k + ENTRY_SIZE];
    var want := RecordBytes(f.data, f.pos + ENTRY_SIZE * k);
    forall i | 0 <= i < ENTRY_SIZE
      ensures slot[i] == want[i]
    {
      assert slot[i] == bs[ENTRY_SIZE * k + i];
    }
  }

  lemma DecodeZeroEntry()
    ensures DecodeEntry(Zeros(ENTRY_SIZE)) == ZERO_ENTRY
  {
    var z := Zeros(ENTRY_SIZE);
    assert z[0..4] == [0, 0, 0, 0] && z[4..8] == [0, 0, 0, 0];
    assert z[8..16] == Zeros(NAME_SIZE);
  }

  /**
   * The constructor as the code is written. It assigns `valid` only on the
   * success path and never initialises it, so every early return leaves it
   * holding whatever `initialValid` the object's storage happened to contain.
   */
  function Construct(source: Source, initialValid: bool): (a: Archive)
    ensures source.CannotOpen? ==> a.valid == initialValid && a.directory == []
    ensures a.valid != initialValid ==> a.valid
    ensures !a.valid ==> a.directory == []
  {
    match source
    case CannotOpen => Archive(initialValid, File([], 0), Header(Zeros(4), 0, 0), [])
    case Contents(data) =>
      var (afterHeader, header) := ReadHeader(data);
      if !AcceptedTag(header.tag) then
        Archive(initialValid, afterHeader, header, [])
      else if header.lumpCount <= 0 then
        Archive(initialValid, afterHeader, header, [])
      else
        var (afterDirectory, directory) := ReadDirectory(afterHeader, header.directoryOffset, header.lumpCount);
        Archive(true, afterDirectory, header, directory)
  }

  /**
   * The constructor as written differs from `Open` only in the flag: an
   * accepted file reads the same header and directory, and a rejected one
   * keeps whatever the storage held instead of false.
   */
  lemma ConstructIsOpenButTheFlag(source: Source, initialValid: bool)
    ensures Construct(source, initialValid) == Open(source).(valid := Open(source).valid || initialValid)
  {
  }

  /** Where the directory read starts: the directory offset, or (when that seek fails) just past the header. */
  function DirectoryStart(h: Header): nat
  {
    if h.directoryOffset >= 0 then h.directoryOffset else HEADER_SIZE
  }

  /**
   * Opening an archive with `valid` initialised to false. The archive is
   * valid exactly when the file opened, its tag is "PWAD" or "IWAD" and its
   * lump count is positive; an invalid archive has an empty directory; a
   * valid one has exactly `lump_count` entries, the k-th decoded from the k-th
   * 16-byte record at the directory offset, zero-padded where the file ends,
   * and all zero if that record lies past the end of the file.
   */
  function Open(source: Source): (a: Archive)
    ensures a.valid <==> source.Contents? && AcceptedTag(a.header.tag) && a.header.lumpCount > 0
    ensures source.Contents? && |source.data| >= HEADER_SIZE ==> a.header == DecodeHeader(source.data[..HEADER_SIZE])
    ensures !a.valid ==> a.directory == []
    ensures a.valid ==> |a.directory| == a.header.lumpCount && NamesWellFormed(a.directory)
    ensures a.valid && source.Contents? && |source.data| >= HEADER_SIZE ==>
      DirectoryRead(a.directory, source.data, DirectoryStart(a.header))
    ensures a.file.data == (if source.Contents? then source.data else [])
  {
    OpenShape(source);
    OpenFacts(source);
    Construct(source, false)
  }

  /** The flag, header and directory size `Open` reports, read off the constructor with the flag initialised false. */
  lemma OpenShape(source: Source)
    ensures var a := Construct(source, false);
      (a.valid <==> source.Contents? && AcceptedTag(a.header.tag) && a.header.lumpCount > 0)
      && (source.Contents? && |source.data| >= HEADER_SIZE ==> a.header == DecodeHeader(source.data[..HEADER_SIZE]))
      && (a.valid ==> |a.directory| == a.header.lumpCount && NamesWellFormed(a.directory))
      && a.file.data == (if source.Contents? then source.data else [])
  {
    if source.Contents? {
      var h := ReadHeader(source.data);
      assert Construct(source, false).header == h.1;
    }
  }

  lemma OpenFacts(source: Source)
    ensures var a := Construct(source, false);
      a.valid && source.Contents? && |source.data| >= HEADER_SIZE ==>
        DirectoryRead(a.directory, source.data, DirectoryStart(a.header))
  {
    var a := Construct(source, false);
    if a.valid && source.Contents? && |source.data| >= HEADER_SIZE {
      var h := ReadHeader(source.data);
      var d := ReadDirectory(h.0, h.1.directoryOffset, h.1.lumpCount);
      assert a.directory == d.1;
      assert a.header == h.1;
      assert Seek(h.0, h.1.directoryOffset).pos == DirectoryStart(h.1);
    }
  }

  /** A file whose header is followed by `payload` and then by the directory of `entries`. */
  function BuildFile(tag: seq<byte>, payload: seq<byte>, entries: seq<LumpEntry>): (data: seq<byte>)
    requires |tag| == 4 && NamesWellFormed(entries)
    requires |entries| < 0x8000_0000 && HEADER_SIZE + |payload| < 0x8000_0000
    ensures |data| == HEADER_SIZE + |payload| + ENTRY_SIZE * |entries|
  {
    EncodeHeader(Header(tag, |entries|, HEADER_SIZE + |payload|)) + payload + EncodeDirectory(entries)
  }

  /**
   * A well-formed archive with N lumps opens as valid, with exactly its N
   * directory entries in file order, whatever lies between header and directory.
   */
  lemma OpenWellFormed(tag: seq<byte>, payload: seq<byte>, entries: seq<LumpEntry>)
    requires tag == PWAD || tag == IWAD
    requires NamesWellFormed(entries) && 0 < |entries| < 0x8000_0000
    requires HEADER_SIZE + |payload| < 0x8000_0000
    ensures var a := Open(Contents(BuildFile(tag, payload, entries)));
      a.valid && a.header == Header(tag, |entries|, HEADER_SIZE + |payload|) && a.directory == entries
  {
    var data := BuildFile(tag, payload, entries);
    OpenedBuiltHeader(tag, payload, entries);
    var directory := Open(Contents(data)).directory;
    forall k | 0 <= k < |entries|
      ensures directory[k] == entries[k]
    {
      BuiltEntry(tag, payload, entries, k);
      OpenedEntry(data, HEADER_SIZE + |payload|, k, entries[k]);
    }
  }

  /** A built file opens as valid, with the header it was built with and one entry per record. */
  lemma OpenedBuiltHeader(tag: seq<byte>, payload: seq<byte>, entries: seq<LumpEntry>)
    requires tag == PWAD || tag == IWAD
    requires NamesWellFormed(entries) && 0 < |entries| < 0x8000_0000
    requires HEADER_SIZE + |payload| < 0x8000_0000
    ensures var a := Open(Contents(BuildFile(tag, payload, entries)));
      a.valid && a.header == Header(tag, |entries|, HEADER_SIZE + |payload|) && |a.directory| == |entries|
  {
    var data := BuildFile(tag, payload, entries);
    var header := Header(tag, |entries|, HEADER_SIZE + |payload|);
    assert data[..HEADER_SIZE] == EncodeHeader(header);
    AcceptedTagIsMagic(tag);
  }

  /** The k-th record of a built file's directory is the k-th entry's encoding. */
  lemma BuiltEntry(tag: seq<byte>, payload: seq<byte>, entries: seq<LumpEntry>, k: nat)
    requires |tag| == 4 && NamesWellFormed(entries) && k < |entries| < 0x8000_0000
    requires HEADER_SIZE + |payload| < 0x8000_0000
    ensures var data := BuildFile(tag, payload, entries);
      var at := HEADER_SIZE + |payload| + ENTRY_SIZE * k;
      data[at..at + ENTRY_SIZE] == EncodeEntry(entries[k])
  {
    var head := EncodeHeader(Header(tag, |entries|, HEADER_SIZE + |payload|)) + payload;
    var directory := EncodeDirectory(entries);
    assert BuildFile(tag, payload, entries) == head + directory;
    var lo := ENTRY_SIZE * k;
    assert lo + ENTRY_SIZE <= |directory| by {
      assert ENTRY_SIZE * |entries| >= ENTRY_SIZE * (k + 1);
    }
    EncodeDirectoryRecord(entries, k);
    ConcatSliceRight(head, directory, lo, lo + ENTRY_SIZE);
  }

  /** A directory record that lies inside the file opens as the entry it encodes. */
  lemma OpenedEntry(data: seq<byte>, start: nat, k: nat, e: LumpEntry)
    requires |data| >= HEADER_SIZE && |e.name| == NAME_SIZE
    requires Open(Contents(data)).valid && DirectoryStart(Open(Contents(data)).header) == start
    requires k < |Open(Contents(data)).directory| && start + ENTRY_SIZE * k + ENTRY_SIZE <= |data|
    requires data[start + ENTRY_SIZE * k..start + ENTRY_SIZE * k + ENTRY_SIZE] == EncodeEntry(e)
    ensures Open(Contents(data)).directory[k] == e
  {
  }

  /**
   * The uninitialised flag, as written: a file that is not a WAD, or has no
   * lumps, or cannot be opened, yields an archive whose `valid` is whatever
   * the storage held; when that was true the archive reads as valid.
   */
  lemma RejectedArchiveKeepsStaleFlag(source: Source, initialValid: bool)
    requires !Open(source).valid
    ensures Construct(source, initialValid).valid == initialValid
    ensures Construct(source, initialValid).directory == []
  {
  }

  /** A concrete file with tag "ABCD" that the code as written may report as a valid WAD. */
  lemma NotAWadMayReadValid()
    ensures var data := [0x41, 0x42, 0x43, 0x44] + EncodeInt32(1) + EncodeInt32(12);
      !Open(Contents(data)).valid && Construct(Contents(data), true).valid
  {
    var data := [0x41, 0x42, 0x43, 0x44] + EncodeInt32(1) + EncodeInt32(12);
    assert data[..HEADER_SIZE][0..4] == [0x41, 0x42, 0x43, 0x44];
    AcceptedTagIsMagic([0x41, 0x42, 0x43, 0x44]);
  }
}
