/** `cmd_save` and `cmd_load`: the file-system image cut into sectors behind an 8-byte header,
    and put together again. */
module DiskImage {
  import opened Wrappers
  import opened Bytes
  import opened Names
  import opened RamFsCodec
  import opened RamFsCodecLaws
  import opened RamFs
  import opened Ata

  /** "PLRS" */
  const MAGIC: seq<byte> := [0x50, 0x4C, 0x52, 0x53]

  // ---------- where the bytes of an image go ----------

  /** Byte `i` of a saved image lies in the sector this far behind the first one ... */
  function SectorOf(i: nat): nat {
    if i < 504 then 0 else 1 + (i - 504) / 512
  }

  /** ... at this offset. */
  function OffsetOf(i: nat): (r: nat)
    ensures r < 512
  {
    if i < 504 then 8 + i else (i - 504) % 512
  }

  /** Sectors that `length` bytes take up, header sector included. */
  function SectorCount(length: nat): nat {
    if length <= 504 then 1 else 1 + (length - 504 + 511) / 512
  }

  lemma CountSectors(length: nat)
    ensures SectorCount(length) >= 1
    ensures length <= 504 ==> SectorCount(length) == 1
    ensures length > 504 ==> 0 < length - (504 + 512 * (SectorCount(length) - 2)) <= 512
  {
  }

  function ByteOrZero(image: seq<byte>, i: nat): byte {
    if i < |image| then image[i] else 0
  }

  ghost function HeaderSector(image: seq<byte>): (r: seq<byte>)
    ensures |r| == 512
  {
    MAGIC + Le32(|image| % 0x1_0000_0000) + Part(image, 0, 504)
  }

  /** `n` bytes of the image from `start` on, padded with zeros behind its end. */
  ghost function Part(image: seq<byte>, start: nat, n: nat): (r: seq<byte>)
    ensures |r| == n
    ensures forall j :: 0 <= j < n ==> r[j] == ByteOrZero(image, start + j)
  {
    seq<byte>(n, j requires 0 <= j < n => ByteOrZero(image, start + j))
  }

  ghost function ImageSector(image: seq<byte>, k: nat): (r: seq<byte>)
    ensures |r| == 512
  {
    if k == 0 then HeaderSector(image) else Part(image, 504 + 512 * (k - 1), 512)
  }

  /** The disk after the first `n` sectors of the image have been written. */
  ghost function Written(v: Sectors, image: seq<byte>, n: nat): (r: Sectors)
    requires IsFull(v)
    ensures IsFull(r)
  {
    if n == 0 then v
    else Written(v, image, n - 1)[SectorAddress(n - 1) := ImageSector(image, n - 1)]
  }

  lemma WrittenNone(v: Sectors, image: seq<byte>)
    requires IsFull(v)
    ensures Written(v, image, 0) == v
  {
  }

  lemma WrittenStep(v: Sectors, image: seq<byte>, n: nat)
    requires IsFull(v)
    ensures Written(v, image, n + 1) == Written(v, image, n)[SectorAddress(n) := ImageSector(image, n)]
  {
  }

  /** Where the k-th sector of an image goes. */
  function SectorAddress(k: nat): (a: nat)
    ensures a < 0x1000_0000
  {
    AddressOf(DATA_START_SECTOR + k)
  }

  /** The sector that is written last at an address, of the first `n`; the addresses wrap at 2^28. */
  ghost predicate IsLastAt(k: nat, n: nat, a: nat) {
    k < n && SectorAddress(k) == a && forall j :: k < j < n ==> SectorAddress(j) != a
  }

  /** Exactly the addresses of the image's sectors change, each to the last sector that goes there. */
  lemma {:induction false} WrittenSectors(v: Sectors, image: seq<byte>, n: nat, a: nat)
    requires IsFull(v) && a < 0x1000_0000
    ensures (forall k :: 0 <= k < n ==> SectorAddress(k) != a) ==> Written(v, image, n)[a] == v[a]
    ensures forall k: nat :: IsLastAt(k, n, a) ==> Written(v, image, n)[a] == ImageSector(image, k)
  {
    hide ImageSector, Written, SectorAddress;
    if n > 0 {
      WrittenSectors(v, image, n - 1, a);
      WrittenStep(v, image, n - 1);
      forall k: nat | IsLastAt(k, n, a) ensures Written(v, image, n)[a] == ImageSector(image, k) {
        assert k < n - 1 ==> IsLastAt(k, n - 1, a);
      }
    } else {
      WrittenNone(v, image);
    }
  }

  /** Up to 2^28 sectors none is written over by a later one. */
  lemma NoOverlap(k: nat, n: nat)
    requires k < n <= 0x1000_0000
    ensures IsLastAt(k, n, SectorAddress(k))
  {
  }

  /** With more, the header is. */
  lemma {:induction false} HeaderIsLost(v: Sectors, image: seq<byte>, n: nat) returns (k: nat)
    requires IsFull(v) && n > 0x1000_0000
    ensures 0 < k < n && Written(v, image, n)[DATA_START_SECTOR] == ImageSector(image, k)
  {
    hide Written, ImageSector;
    k := (n - 1) / 0x1000_0000 * 0x1000_0000;
    assert IsLastAt(k, n, DATA_START_SECTOR) by { WrapsToHeader(k / 0x1000_0000, n); }
    WrittenSectors(v, image, n, DATA_START_SECTOR);
  }

  lemma WrapsToHeader(q: nat, n: nat)
    requires q == (n - 1) / 0x1000_0000 && n > 0
    ensures IsLastAt(q * 0x1000_0000, n, DATA_START_SECTOR)
  {
  }

  /** The layout in numbers: sector 2048 begins with the letters PLRS and the length, low byte first;
      the image follows from byte 8 on and goes on in the sectors behind, padded with zeros. */
  lemma {:induction false} SavedLayout(v: Sectors, image: seq<byte>, i: nat)
    requires IsFull(v) && |image| < 0x1_0000_0000
    ensures var disk := Written(v, image, SectorCount(|image|));
            && |disk[2048]| == 512 && disk[2048][..4] == [0x50, 0x4C, 0x52, 0x53]
            && disk[2048][4] as int + 0x100 * disk[2048][5] as int + 0x1_0000 * disk[2048][6] as int
               + 0x100_0000 * disk[2048][7] as int == |image|
            && (i < 504 ==> disk[2048][8 + i] == if i < |image| then image[i] else 0)
            && (504 <= i && (i - 504) / 512 * 512 < |image| - 504 ==>
                 var a := 2049 + (i - 504) / 512;
                 |disk[a]| == 512 && disk[a][(i - 504) % 512] == if i < |image| then image[i] else 0)
    ensures |image| <= 504 ==> SectorCount(|image|) == 1
    ensures |image| > 504 ==> 512 * (SectorCount(|image|) - 2) < |image| - 504 <= 512 * (SectorCount(|image|) - 1)
  {
    hide Written, ImageSector, SectorAddress, IsLastAt, SectorCount, Le32, Part, HeaderSector;
    var n := SectorCount(|image|);
    CountSectors(|image|);
    NoOverlap(0, n);
    HeaderAddress();
    HeaderIsSectorZero(image);
    WrittenSectors(v, image, n, 2048);
    HeaderLayout(image);
    if i < 504 {
      ImageSectorBytes(image, i);
    } else if (i - 504) / 512 * 512 < |image| - 504 {
      var k := SectorOf(i);
      NoOverlap(k, n);
      SectorBehind(k);
      WrittenSectors(v, image, n, 2048 + k);
      ImageSectorBytes(image, i);
    }
  }

  lemma SectorBehind(k: nat)
    requires k < 0x100_0000
    ensures SectorAddress(k) == 2048 + k
  {
  }

  lemma HeaderLayout(image: seq<byte>)
    requires |image| < 0x1_0000_0000
    ensures var h := HeaderSector(image);
            && h[..4] == [0x50, 0x4C, 0x52, 0x53]
            && h[4] as int + 0x100 * h[5] as int + 0x1_0000 * h[6] as int + 0x100_0000 * h[7] as int == |image|
  {
    hide Le32;
    var h, field := HeaderSector(image), Le32(|image|);
    assert h[..4] == MAGIC;
    assert h[4] == field[0] && h[5] == field[1] && h[6] == field[2] && h[7] == field[3];
    LittleEndian(|image|);
  }

  // ---------- reading an image back ----------

  /** Byte `i` of whatever image the disk holds. */
  ghost function StoredByte(v: Sectors, i: nat): byte
    requires IsFull(v)
  {
    v[SectorAddress(SectorOf(i))][OffsetOf(i)]
  }

  ghost function StoredBytes(v: Sectors, n: nat): (r: seq<byte>)
    requires IsFull(v)
    ensures |r| == n
    ensures forall i :: 0 <= i < n ==> r[i] == StoredByte(v, i)
  {
    seq<byte>(n, i requires 0 <= i < n => StoredByte(v, i))
  }

  ghost function StoredLength(v: Sectors): nat
    requires IsFull(v)
  {
    var h := v[DATA_START_SECTOR];
    FromLe32(h[4], h[5], h[6], h[7])
  }

  /** The image on the disk, if there is one. */
  ghost function ReadImage(v: Sectors): Option<seq<byte>>
    requires IsFull(v)
  {
    if v[DATA_START_SECTOR][..4] != MAGIC then None
    else Some(StoredBytes(v, StoredLength(v)))
  }

  /** What is read, in numbers: an image is there exactly behind the letters PLRS in sector 2048, as long
      as the next four bytes say, and its bytes follow each other through the sectors behind. */
  lemma {:induction false} ReadLayout(v: Sectors, i: nat)
    requires IsFull(v)
    ensures ReadImage(v).Some? <==> v[2048][..4] == [0x50, 0x4C, 0x52, 0x53]
    ensures ReadImage(v).Some? ==>
      var h, image := v[2048], ReadImage(v).value;
      && |image| == h[4] as int + 0x100 * h[5] as int + 0x1_0000 * h[6] as int + 0x100_0000 * h[7] as int
      && (i < |image| ==> image[i] == if i < 504 then h[8 + i] else v[2049 + (i - 504) / 512][(i - 504) % 512])
  {
    hide SectorAddress, FromLe32;
    var h := v[2048];
    ReadsLittleEndian(h[4], h[5], h[6], h[7]);
    HeaderAddress();
    if ReadImage(v).Some? && i < |ReadImage(v).value| {
      SectorBehind(SectorOf(i));
    }
  }

  lemma {:induction false} ImageSectorBytes(image: seq<byte>, i: nat)
    ensures ImageSector(image, SectorOf(i))[OffsetOf(i)] == ByteOrZero(image, i)
  {
    if i < 504 {
      assert HeaderSector(image)[8 + i] == Part(image, 0, 504)[i];
    } else {
      assert 504 + 512 * ((i - 504) / 512) + (i - 504) % 512 == i;
    }
  }

  lemma {:induction false} HeaderTells(image: seq<byte>)
    ensures var h := HeaderSector(image);
            h[..4] == MAGIC && FromLe32(h[4], h[5], h[6], h[7]) == |image| % 0x1_0000_0000
  {
    var h, field := HeaderSector(image), Le32(|image| % 0x1_0000_0000);
    assert h[..4] == MAGIC;
    assert h[4] == field[0] && h[5] == field[1] && h[6] == field[2] && h[7] == field[3];
    Le32RoundTrip(|image| % 0x1_0000_0000);
  }

  lemma {:induction false} StoredWrittenByte(v: Sectors, image: seq<byte>, i: nat)
    requires IsFull(v) && SectorCount(|image|) <= 0x1000_0000 && i < |image|
    ensures StoredByte(Written(v, image, SectorCount(|image|)), i) == image[i]
  {
    hide Written, ImageSector, OffsetOf, SectorAddress, IsLastAt;
    NoOverlap(SectorOf(i), SectorCount(|image|));
    WrittenSectors(v, image, SectorCount(|image|), SectorAddress(SectorOf(i)));
    ImageSectorBytes(image, i);
  }

  /** What comes back is the saved image up to the length its 32-bit field can tell, as long as the
      sectors do not wrap onto the header. */
  lemma {:induction false} ReadWritten(v: Sectors, image: seq<byte>)
    requires IsFull(v)
    ensures SectorCount(|image|) <= 0x1000_0000 ==>
      ReadImage(Written(v, image, SectorCount(|image|))) == Some(image[..|image| % 0x1_0000_0000])
    ensures SectorCount(|image|) > 0x1000_0000 ==>
      exists k :: 0 < k < SectorCount(|image|) &&
        Written(v, image, SectorCount(|image|))[DATA_START_SECTOR] == ImageSector(image, k)
  {
    hide HeaderSector, ImageSector, Part, Le32, FromLe32, Written;
    hide SectorAddress, SectorOf, OffsetOf, StoredByte, IsLastAt;
    var n := SectorCount(|image|);
    if n <= 0x1000_0000 {
      var after := Written(v, image, n);
      var length := |image| % 0x1_0000_0000;
      CountSectors(|image|);
      NoOverlap(0, n);
      HeaderAddress();
      WrittenSectors(v, image, n, DATA_START_SECTOR);
      HeaderIsSectorZero(image);
      HeaderTells(image);
      forall i | 0 <= i < length ensures StoredByte(after, i) == image[i] {
        StoredWrittenByte(v, image, i);
      }
      assert StoredBytes(after, length) == image[..length];
    } else {
      var k := HeaderIsLost(v, image, n);
    }
  }

  lemma HeaderAddress()
    ensures SectorAddress(0) == DATA_START_SECTOR
  {
  }

  lemma HeaderIsSectorZero(image: seq<byte>)
    ensures ImageSector(image, 0) == HeaderSector(image)
  {
  }

  /** The tree `cmd_load` installs from this medium if no sector access fails. */
  ghost function LoadTree(v: Sectors): Option<Directory>
    requires IsFull(v)
  {
    match ReadImage(v)
    case None => None
    case Some(data) => LoadFrom(data)
  }

  /** A tree is installed exactly if it is what the image on the disk begins with. */
  lemma LoadTreeIff(v: Sectors, root: Directory)
    requires IsFull(v)
    ensures LoadTree(v) == Some(root) <==>
      ReadImage(v).Some? && exists rest :: ParseDir(ReadImage(v).value) == Some((root, rest))
  {
    hide ParseDir, ReadImage;
  }

  /** Saving and loading brings the tree back exactly when its sizes fit the image format and the
      image is shorter than 2^32 bytes, whatever was on the disk before. */
  lemma {:induction false} SaveLoadIff(v: Sectors, root: Directory)
    requires IsFull(v)
    ensures LoadTree(Written(v, Serialize(root), SectorCount(|Serialize(root)|))) == Some(root)
       <==> WellSized(Dir(root)) && |Serialize(root)| < 0x1_0000_0000
  {
    hide Serialize, ReadImage, Written, WellSized, LoadFrom;
    var image := Serialize(root);
    var after := Written(v, image, SectorCount(|image|));
    if |image| < 0x1_0000_0000 {
      ReadWritten(v, image);
      assert image[..|image|] == image;
      RoundTripIff(root);
    } else {
      LoadedTreeIsShort(after);
    }
  }

  /** No disk holds an image of 2^32 bytes or more, so no tree with so long an image can be loaded,
      not even when its sectors wrapped around the end of the address space. */
  lemma {:induction false} LoadedTreeIsShort(v: Sectors)
    requires IsFull(v)
    ensures match LoadTree(v) case None => true case Some(root) => |Serialize(root)| < 0x1_0000_0000
  {
    hide Serialize, WellSized, ParseDir, StoredBytes;
    if LoadTree(v).Some? {
      LoadedInputNormalises(ReadImage(v).value);
    }
  }

  // ---------- the commands ----------

  datatype SaveResult =
    | SaveNoDisk
    | HeaderWriteFailed
    | SectorWriteFailed(sector: nat)
    | Saved(length: nat, sectors: nat)

  datatype LoadResult =
    | LoadNoDisk
    | HeaderReadFailed
    | NoImage
    | SectorReadFailed(sector: nat)
    | Corrupt
    | Loaded(length: nat)

  ghost predicate NoFaults(faults: nat -> bool, from: nat, count: nat) {
    forall i :: from <= i < from + count ==> !faults(i)
  }

  /** Of the sector accesses after the first `from`, the one numbered `n` is the first to fail. */
  ghost predicate FirstFault(faults: nat -> bool, from: nat, n: nat) {
    NoFaults(faults, from, n) && faults(from + n)
  }

  /** Which of its answers `cmd_save` gives. */
  ghost predicate SaveAnswer(r: SaveResult, available: bool, image: seq<byte>, faults: nat -> bool, from: nat) {
    match r
    case SaveNoDisk => !available
    case HeaderWriteFailed => available && FirstFault(faults, from, 0)
    case SectorWriteFailed(s) =>
      && available && DATA_START_SECTOR < s < DATA_START_SECTOR + SectorCount(|image|)
      && FirstFault(faults, from, s - DATA_START_SECTOR)
    case Saved(length, sectors) =>
      && available && NoFaults(faults, from, SectorCount(|image|))
      && length == |image| && sectors == SectorCount(|image|)
  }

  /** How many sectors of the image are on the disk then. */
  function SectorsDone(r: SaveResult): nat {
    match r
    case SaveNoDisk => 0
    case HeaderWriteFailed => 0
    case SectorWriteFailed(s) => if s > DATA_START_SECTOR then s - DATA_START_SECTOR else 0
    case Saved(_, sectors) => sectors
  }

  lemma AccessCounted(faults: nat -> bool, from: nat, n: nat)
    ensures NoFaults(faults, from, 0)
    ensures NoFaults(faults, from, n) && !faults(from + n) ==> NoFaults(faults, from, n + 1)
    ensures NoFaults(faults, from, n) && faults(from + n) ==> FirstFault(faults, from, n)
  {
  }

  /** `cmd_save`. A failed sector leaves the sectors before it written and everything else as it
      was; success means exactly `SectorCount` sectors were written. */
  method CmdSave(drive: Drive, fs: RamFs) returns (r: SaveResult)
    requires drive.Valid()
    modifies drive
    ensures drive.Valid()
    ensures SaveAnswer(r, old(drive.available), Serialize(fs.root), drive.faults, old(drive.issued))
    ensures drive.Contents() == Written(old(drive.Contents()), Serialize(fs.root), SectorsDone(r))
    ensures drive.available == old(drive.available)
  {
    hide ImageSector, Serialize, Written, SectorsOf, SectorCount, IsFull, WellFormed, NoFaults, FirstFault;
    var data := fs.Save();
    ghost var before := drive.Contents();
    WrittenNone(before, data);
    if !drive.available { return SaveNoDisk; }
    CountSectors(|data|);
    AccessCounted(drive.faults, drive.issued, 0);
    var ok := StoreHeader(drive, data, before);
    if !ok { return HeaderWriteFailed; }
    r := StoreRest(drive, data, before, old(drive.issued));
  }

  /** The part of `cmd_save` behind the header. */
  method StoreRest(drive: Drive, data: seq<byte>, ghost before: Sectors, ghost from: nat) returns (r: SaveResult)
    requires drive.Valid() && drive.available && IsFull(before) && drive.Contents() == Written(before, data, 1)
    requires drive.issued == from + 1 && NoFaults(drive.faults, from, 1)
    modifies drive
    ensures drive.Valid() && drive.available == old(drive.available)
    ensures SaveAnswer(r, true, data, drive.faults, from)
    ensures drive.Contents() == Written(before, data, SectorsDone(r))
  {
    hide ImageSector, Written, SectorsOf, SectorCount, IsFull, WellFormed, NoFaults, FirstFault;
    ghost var count := SectorCount(|data|);
    CountSectors(|data|);
    var offset := if |data| <= 504 then |data| else 504;
    var sector := DATA_START_SECTOR + 1;
    while offset < |data|
      invariant drive.Valid() && drive.available
      invariant DATA_START_SECTOR < sector <= DATA_START_SECTOR + count
      invariant offset == |data| || offset == 504 + 512 * (sector - DATA_START_SECTOR - 1)
      invariant offset <= |data| && (offset == |data| ==> sector == DATA_START_SECTOR + count)
      invariant drive.issued == from + (sector - DATA_START_SECTOR)
      invariant NoFaults(drive.faults, from, sector - DATA_START_SECTOR)
      invariant drive.Contents() == Written(before, data, sector - DATA_START_SECTOR)
    {
      var ok, chunk;
      AccessCounted(drive.faults, from, sector - DATA_START_SECTOR);
      ok, chunk := StoreChunk(drive, data, offset, sector, sector - DATA_START_SECTOR, before);
      if !ok { return SectorWriteFailed(sector); }
      offset := offset + chunk;
      sector := sector + 1;
    }
    r := Saved(|data|, sector - DATA_START_SECTOR);
  }

  /** The first sector: magic, length, and as much of the image as fits behind them. */
  method StoreHeader(drive: Drive, data: seq<byte>, ghost before: Sectors) returns (ok: bool)
    requires drive.Valid() && IsFull(before) && drive.Contents() == Written(before, data, 0)
    modifies drive
    ensures drive.Valid() && drive.available == old(drive.available)
    ensures ok == (old(drive.available) && !drive.faults(old(drive.issued)))
    ensures drive.issued == old(drive.issued) + if old(drive.available) then 1 else 0
    ensures drive.Contents() == Written(before, data, if ok then 1 else 0)
  {
    var firstChunk := if |data| <= 504 then |data| else 504;
    var header := MAGIC + Le32(|data| % 0x1_0000_0000) + data[..firstChunk] + seq(504 - firstChunk, _ => 0);
    HeaderIsFirst(data, firstChunk);
    WrittenStep(before, data, 0);
    hide Written, ImageSector, SectorsOf, Le32;
    ok := drive.WriteSector(DATA_START_SECTOR, header);
  }

  /** The next 512 bytes of the image, or the rest of it padded with zeros. */
  method StoreChunk(drive: Drive, data: seq<byte>, offset: nat, sector: nat, ghost k: nat, ghost before: Sectors)
    returns (ok: bool, chunk: nat)
    requires drive.Valid() && IsFull(before)
    requires k > 0 && sector == DATA_START_SECTOR + k && offset == 504 + 512 * (k - 1) < |data|
    requires drive.Contents() == Written(before, data, k)
    modifies drive
    ensures drive.Valid() && drive.available == old(drive.available)
    ensures ok == (old(drive.available) && !drive.faults(old(drive.issued)))
    ensures drive.issued == old(drive.issued) + if old(drive.available) then 1 else 0
    ensures drive.Contents() == Written(before, data, if ok then k + 1 else k)
    ensures chunk == if |data| - offset <= 512 then |data| - offset else 512
  {
    hide Written, ImageSector, SectorsOf, Padded;
    chunk := if |data| - offset <= 512 then |data| - offset else 512;
    ChunkIsSector(data, k);
    WrittenStep(before, data, k);
    ok := drive.WriteSector(sector, Padded(data, offset, chunk));
  }

  lemma {:induction false} HeaderIsFirst(data: seq<byte>, firstChunk: nat)
    requires firstChunk == if |data| <= 504 then |data| else 504
    ensures MAGIC + Le32(|data| % 0x1_0000_0000) + data[..firstChunk] + seq(504 - firstChunk, _ => 0)
         == ImageSector(data, 0)
  {
    assert data[..firstChunk] + seq(504 - firstChunk, _ => 0) == Part(data, 0, 504);
  }

  /** A zeroed sector buffer with `chunk` bytes of the image copied to its start. */
  function Padded(data: seq<byte>, offset: nat, chunk: nat): (r: seq<byte>)
    requires offset + chunk <= |data| && chunk <= 512
    ensures |r| == 512
  {
    data[offset..offset + chunk] + seq(512 - chunk, _ => 0)
  }

  lemma {:induction false} ChunkIsSector(data: seq<byte>, k: nat)
    requires k > 0 && 504 + 512 * (k - 1) < |data|
    ensures var offset := 504 + 512 * (k - 1);
            Padded(data, offset, if |data| - offset <= 512 then |data| - offset else 512) == ImageSector(data, k)
  {
    var offset := 504 + 512 * (k - 1);
    assert Padded(data, offset, if |data| - offset <= 512 then |data| - offset else 512) == Part(data, offset, 512);
  }

  /** Which of its answers `cmd_load` gives on a medium. */
  ghost predicate LoadAnswer(r: LoadResult, available: bool, v: Sectors, faults: nat -> bool, from: nat)
    requires IsFull(v)
  {
    match r
    case LoadNoDisk => !available
    case HeaderReadFailed => available && faults(from)
    case NoImage => available && !faults(from) && ReadImage(v) == None
    case SectorReadFailed(s) =>
      && available && ReadImage(v).Some?
      && DATA_START_SECTOR < s < DATA_START_SECTOR + SectorCount(StoredLength(v))
      && FirstFault(faults, from, s - DATA_START_SECTOR)
    case Corrupt =>
      available && NoFaults(faults, from, SectorCount(StoredLength(v))) && ReadImage(v).Some? && LoadTree(v) == None
    case Loaded(length) =>
      && available && NoFaults(faults, from, SectorCount(StoredLength(v)))
      && LoadTree(v).Some? && length == StoredLength(v)
  }

  lemma {:induction false} FindFault(faults: nat -> bool, from: nat, n: nat) returns (r: Option<nat>)
    ensures match r
            case None => NoFaults(faults, from, n)
            case Some(k) => k < n && FirstFault(faults, from, k)
  {
    r := None;
    if n > 0 {
      r := FindFault(faults, from, n - 1);
      if r.None? && faults(from + (n - 1)) { r := Some(n - 1); }
    }
  }

  /** On every medium and for every pattern of faults there is exactly one answer. */
  lemma {:induction false} LoadHasOneAnswer(available: bool, v: Sectors, faults: nat -> bool, from: nat)
    returns (r: LoadResult)
    requires IsFull(v)
    ensures LoadAnswer(r, available, v, faults, from)
    ensures forall r': LoadResult :: LoadAnswer(r', available, v, faults, from) ==> r' == r
  {
    hide ReadImage, LoadFrom, StoredLength, SectorCount, NoFaults;
    CountSectors(StoredLength(v));
    var count := SectorCount(StoredLength(v));
    var fault := FindFault(faults, from, count);
    r := if !available then LoadNoDisk
         else if fault == Some(0) then HeaderReadFailed
         else if ReadImage(v).None? then NoImage
         else if fault.Some? then SectorReadFailed(DATA_START_SECTOR + fault.value)
         else if LoadTree(v).None? then Corrupt
         else Loaded(StoredLength(v));
    assert from + 0 == from;
    NoFaultYet(faults, from, count, 0);
    if fault.Some? {
      NoFaultYet(faults, from, fault.value, 0);
      NoFaultYet(faults, from, count, fault.value);
    }
    forall r': LoadResult | LoadAnswer(r', available, v, faults, from) ensures r' == r {
      if r'.SectorReadFailed? {
        var k := r'.sector - DATA_START_SECTOR;
        NoFaultYet(faults, from, k, 0);
        NoFaultYet(faults, from, count, k);
        if fault.Some? {
          NoFaultYet(faults, from, k, fault.value);
          NoFaultYet(faults, from, fault.value, k);
        }
      }
    }
  }

  /** Each answer of `cmd_load` and what it means, from the disk's bytes and the accesses that fail. */
  lemma {:induction false} LoadAnswers(r: LoadResult, available: bool, v: Sectors, faults: nat -> bool, from: nat)
    requires IsFull(v) && LoadAnswer(r, available, v, faults, from)
    ensures r == LoadNoDisk <==> !available
    ensures r == HeaderReadFailed <==> available && faults(from)
    ensures r == NoImage <==> available && !faults(from) && v[2048][..4] != [0x50, 0x4C, 0x52, 0x53]
    ensures r.SectorReadFailed? ==>
      && 2048 < r.sector < 2048 + SectorCount(StoredLength(v)) && faults(from + (r.sector - 2048))
      && forall i :: from <= i < from + (r.sector - 2048) ==> !faults(i)
    ensures r.Corrupt? || r.Loaded? ==>
      && (r.Corrupt? <==> LoadTree(v) == None)
      && forall i :: from <= i < from + SectorCount(StoredLength(v)) ==> !faults(i)
    ensures r.Loaded? ==> r.length == StoredLength(v)
  {
    hide LoadFrom, ReadImage, StoredLength, SectorCount;
    CountSectors(StoredLength(v));
    ReadLayout(v, 0);
    assert from + 0 == from;
    if r.SectorReadFailed? || r.Corrupt? || r.Loaded? {
      NoFaultYet(faults, from, if r.SectorReadFailed? then r.sector - 2048 else SectorCount(StoredLength(v)), 0);
    }
  }

  /** And each answer of `cmd_save`. */
  lemma {:induction false} SaveAnswers(r: SaveResult, available: bool, image: seq<byte>, faults: nat -> bool, from: nat)
    requires SaveAnswer(r, available, image, faults, from)
    ensures r == SaveNoDisk <==> !available
    ensures r == HeaderWriteFailed <==> available && faults(from)
    ensures r.SectorWriteFailed? ==>
      && 2048 < r.sector < 2048 + SectorCount(|image|) && faults(from + (r.sector - 2048))
      && (forall i :: from <= i < from + (r.sector - 2048) ==> !faults(i)) && SectorsDone(r) == r.sector - 2048
    ensures r.Saved? ==>
      && r.length == |image| && r.sectors == SectorCount(|image|) == SectorsDone(r)
      && forall i :: from <= i < from + r.sectors ==> !faults(i)
    ensures r == SaveNoDisk || r == HeaderWriteFailed ==> SectorsDone(r) == 0
  {
    hide SectorCount;
    CountSectors(|image|);
    assert from + 0 == from;
    if r.SectorWriteFailed? || r.Saved? {
      NoFaultYet(faults, from, if r.Saved? then r.sectors else r.sector - 2048, 0);
    }
  }

  lemma NoFaultYet(faults: nat -> bool, from: nat, n: nat, k: nat)
    ensures NoFaults(faults, from, n) && k < n ==> !faults(from + k)
  {
  }

  /** `cmd_load`. The tree is replaced and the working directory reset only when a whole image
      was read and decoded; the disk is never changed. */
  method CmdLoad(drive: Drive, fs: RamFs, cwd: seq<Name>) returns (r: LoadResult, cwd': seq<Name>)
    requires drive.Valid()
    modifies drive, fs
    ensures drive.Valid() && drive.Contents() == old(drive.Contents())
    ensures LoadAnswer(r, old(drive.available), drive.Contents(), drive.faults, old(drive.issued))
    ensures if r.Loaded? then Some(fs.root) == LoadTree(drive.Contents()) && cwd' == []
            else fs.root == old(fs.root) && cwd' == cwd
  {
    hide SectorsOf, IsFull, LoadFrom, SectorCount, StoredLength, ReadImage, WellFormed, NoFaults, FirstFault;
    cwd' := cwd;
    var failure, data := FetchImage(drive);
    if failure.Some? { return failure.value, cwd'; }
    var loaded := RamFs.Load(data);
    if loaded.None? { return Corrupt, cwd'; }
    fs.Replace(loaded.value);
    r, cwd' := Loaded(|data|), [];
  }

  /** The part of `cmd_load` that reads the image, header first. */
  method FetchImage(drive: Drive) returns (failure: Option<LoadResult>, data: seq<byte>)
    requires drive.Valid()
    modifies drive
    ensures drive.Valid() && drive.Contents() == old(drive.Contents())
    ensures match failure
            case Some(r) =>
              && (r.LoadNoDisk? || r.HeaderReadFailed? || r.NoImage? || r.SectorReadFailed?)
              && LoadAnswer(r, old(drive.available), drive.Contents(), drive.faults, old(drive.issued))
            case None =>
              && old(drive.available)
              && ReadImage(drive.Contents()) == Some(data) && |data| == StoredLength(drive.Contents())
              && NoFaults(drive.faults, old(drive.issued), SectorCount(StoredLength(drive.Contents())))
  {
    hide SectorsOf, StoredBytes, IsFull, LoadTree, SectorCount, WellFormed, FromLe32, NoFaults, FirstFault;
    if !drive.available { return Some(LoadNoDisk), []; }
    ghost var v, from := drive.Contents(), drive.issued;
    ghost var count := SectorCount(StoredLength(v));
    CountSectors(StoredLength(v));
    AccessCounted(drive.faults, from, 0);
    var ok, header := drive.ReadSector(DATA_START_SECTOR);
    if !ok { return Some(HeaderReadFailed), []; }
    assert header[0..4] == header[..4];
    if header[0..4] != MAGIC { return Some(NoImage), []; }
    var total := FromLe32(header[4], header[5], header[6], header[7]);
    assert total == StoredLength(v);
    data := header[8..8 + if total <= 504 then total else 504];
    HeaderBytes(v, |data|);
    var sector := DATA_START_SECTOR + 1;
    while |data| < total
      invariant drive.Valid() && drive.available && drive.Contents() == v
      invariant DATA_START_SECTOR < sector <= DATA_START_SECTOR + count
      invariant |data| <= total && (|data| == total || |data| == 504 + 512 * (sector - DATA_START_SECTOR - 1))
      invariant |data| == total ==> sector == DATA_START_SECTOR + count
      invariant drive.issued == from + (sector - DATA_START_SECTOR)
      invariant NoFaults(drive.faults, from, sector - DATA_START_SECTOR)
      invariant data == StoredBytes(v, |data|)
      decreases total - |data|
    {
      AccessCounted(drive.faults, from, sector - DATA_START_SECTOR);
      ok, data := FetchChunk(drive, v, data, total, sector);
      if !ok { return Some(SectorReadFailed(sector)), data; }
      sector := sector + 1;
    }
    failure := None;
  }

  /** The next sector of the image, or as much of it as is still missing. */
  method FetchChunk(drive: Drive, ghost v: Sectors, sofar: seq<byte>, total: nat, sector: nat)
    returns (ok: bool, data: seq<byte>)
    requires drive.Valid() && IsFull(v) && drive.Contents() == v && |sofar| < total && sofar == StoredBytes(v, |sofar|)
    requires sector > DATA_START_SECTOR && |sofar| == 504 + 512 * (sector - DATA_START_SECTOR - 1)
    modifies drive
    ensures drive.Valid() && drive.available == old(drive.available) && drive.Contents() == v
    ensures ok == (old(drive.available) && !drive.faults(old(drive.issued)))
    ensures drive.issued == old(drive.issued) + if old(drive.available) then 1 else 0
    ensures ok ==> |data| == (if total - |sofar| <= 512 then total else |sofar| + 512) && data == StoredBytes(v, |data|)
  {
    hide SectorsOf, StoredBytes, IsFull, WellFormed;
    var buf;
    ok, buf := drive.ReadSector(sector);
    if !ok { return ok, sofar; }
    var chunk := if total - |sofar| <= 512 then total - |sofar| else 512;
    SectorBytes(v, sector - DATA_START_SECTOR, chunk);
    data := sofar + buf[..chunk];
  }

  lemma {:induction false} HeaderBytes(v: Sectors, n: nat)
    requires IsFull(v) && n <= 504
    ensures v[DATA_START_SECTOR][8..8 + n] == StoredBytes(v, n)
  {
  }

  lemma {:induction false} SectorBytes(v: Sectors, k: nat, chunk: nat)
    requires IsFull(v) && k > 0 && chunk <= 512
    ensures var n := 504 + 512 * (k - 1);
            StoredBytes(v, n) + v[SectorAddress(k)][..chunk] == StoredBytes(v, n + chunk)
  {
    var n := 504 + 512 * (k - 1);
    forall i | n <= i < n + chunk ensures StoredByte(v, i) == v[SectorAddress(k)][i - n] {
    }
  }

  /** The two commands in a row on a fault-free disk, from any earlier contents: the same tree
      comes back exactly when it fits the format. */
  method SaveThenLoad(drive: Drive, fs: RamFs, cwd: seq<Name>) returns (s: SaveResult, l: LoadResult, cwd': seq<Name>)
    requires drive.Valid() && drive.available && (forall n: nat :: !drive.faults(n))
    modifies drive, fs
    ensures s.Saved?
    ensures l.Loaded? && fs.root == old(fs.root)
       <==> WellSized(Dir(old(fs.root))) && |Serialize(old(fs.root))| < 0x1_0000_0000
  {
    hide Serialize, LoadFrom, ReadImage, SectorsOf, Written, WellSized, SectorCount, IsFull, WellFormed, StoredLength;
    SaveLoadIff(drive.Contents(), fs.root);
    s := CmdSave(drive, fs);
    l, cwd' := CmdLoad(drive, fs, cwd);
  }
}
