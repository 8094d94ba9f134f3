/** The ATA drive behind its ports, and `read_sector`/`write_sector`: the 28-bit LBA goes
    through four registers, the 512 bytes through 256 little-endian words. */
module Ata {
  import opened Bytes

  type word = x: int | 0 <= x < 0x1_0000

  const DATA_START_SECTOR: nat := 2048

  /** Contents by 28-bit address; an address never written reads as zeros. */
  type Medium = map<nat, seq<word>>

  ghost function WordsAt(m: Medium, address: nat): (r: seq<word>)
    requires WellFormed(m)
    ensures |r| == 256
  {
    if address in m then m[address] else seq(256, _ => 0)
  }

  ghost predicate WellFormed(m: Medium) {
    forall a :: a in m ==> |m[a]| == 256
  }

  function Pack(buf: seq<byte>): (r: seq<word>)
    requires |buf| == 512
    ensures |r| == 256
  {
    seq(256, i requires 0 <= i < 256 => buf[2 * i + 1] as int * 256 + buf[2 * i])
  }

  function Unpack(words: seq<word>): (r: seq<byte>)
    requires |words| == 256
    ensures |r| == 512
  {
    seq(512, j requires 0 <= j < 512 => if j % 2 == 0 then words[j / 2] % 256 else words[j / 2] / 256)
  }

  /** No byte is lost or swapped on its way through the data port. */
  lemma PackRoundTrip(buf: seq<byte>)
    requires |buf| == 512
    ensures Unpack(Pack(buf)) == buf
  {
    forall j | 0 <= j < 512 ensures Unpack(Pack(buf))[j] == buf[j] {
      assert j == 2 * (j / 2) + j % 2;
    }
  }

  // ---------- the LBA registers ----------

  function HeadRegister(lba: nat): byte { 0xE0 + lba / 0x100_0000 % 16 }
  function LowRegister(lba: nat): byte { lba % 256 }
  function MidRegister(lba: nat): byte { lba / 0x100 % 256 }
  function HighRegister(lba: nat): byte { lba / 0x1_0000 % 256 }

  /** The sector a drive selects: the low four bits of the head register above the other three. */
  function SelectedAddress(head: byte, high: byte, mid: byte, low: byte): nat {
    head % 16 * 0x100_0000 + high as nat * 0x1_0000 + mid as nat * 0x100 + low
  }

  /** The four registers carry exactly the low 28 bits, so two sector numbers select the same
      sector if and only if they agree modulo 2^28. */
  lemma RegistersSelect(lba: nat)
    ensures SelectedAddress(HeadRegister(lba), HighRegister(lba), MidRegister(lba), LowRegister(lba))
         == lba % 0x1000_0000
  {
    var a, b, c := lba / 0x100, lba / 0x1_0000, lba / 0x100_0000;
    assert b == a / 0x100 && c == b / 0x100;
    assert lba % 0x1000_0000 == lba - lba / 0x1000_0000 * 0x1000_0000;
    assert lba / 0x1000_0000 == c / 16;
  }

  /** In numbers: sector 0x0ABCDEF5 goes out as EA, BC, DE, F5, and the head register always selects the
      first drive in LBA mode. */
  lemma RegistersInNumbers(lba: nat)
    ensures HeadRegister(lba) / 16 == 0xE
    ensures var n := 0x0ABC_DEF5;
            HeadRegister(n) == 0xEA && HighRegister(n) == 0xBC && MidRegister(n) == 0xDE && LowRegister(n) == 0xF5
    ensures SelectedAddress(0xEA, 0xBC, 0xDE, 0xF5) == 0x0ABC_DEF5
  {
  }

  /** A word on the port holds two neighbouring bytes, the first one low. */
  lemma PackInNumbers(buf: seq<byte>, i: nat)
    requires |buf| == 512 && i < 256
    ensures Pack(buf)[i] as int == buf[2 * i] as int + 0x100 * buf[2 * i + 1] as int
    ensures buf[2 * i] == 0x34 && buf[2 * i + 1] == 0x12 ==> Pack(buf)[i] == 0x1234
  {
  }

  function AddressOf(lba: nat): (a: nat)
    ensures a < 0x1000_0000
  {
    lba % 0x1000_0000
  }

  /** The whole disk as bytes: 512 for each of the 2^28 addressable sectors. */
  type Sectors = imap<nat, seq<byte>>

  ghost predicate IsFull(v: Sectors) {
    forall a: nat :: a < 0x1000_0000 ==> a in v && |v[a]| == 512
  }

  ghost function SectorsOf(m: Medium): (v: Sectors)
    requires WellFormed(m)
    ensures IsFull(v)
  {
    imap a: nat | a < 0x1000_0000 :: Unpack(WordsAt(m, a))
  }

  /** Storing 256 packed words replaces exactly one sector by the packed bytes. */
  lemma StoreIsOneSector(m: Medium, a: nat, buf: seq<byte>)
    requires WellFormed(m) && a < 0x1000_0000 && |buf| == 512
    ensures WellFormed(m[a := Pack(buf)])
    ensures SectorsOf(m[a := Pack(buf)]) == SectorsOf(m)[a := buf]
  {
    PackRoundTrip(buf);
  }

  /** The drive. `faults(n)` says whether the n-th command ends with the error bit set; nothing is
      transferred then. */
  class Drive {
    var available: bool
    const faults: nat -> bool
    var issued: nat
    var head: byte
    var high: byte
    var mid: byte
    var low: byte
    var transfer: seq<word>
    var medium: Medium

    constructor (available: bool, faults: nat -> bool, medium: Medium)
      requires WellFormed(medium)
      ensures this.available == available && this.faults == faults && this.medium == medium
      ensures issued == 0 && Valid()
    {
      this.available, this.faults, this.medium := available, faults, medium;
      issued, head, high, mid, low, transfer := 0, 0, 0, 0, 0, [];
    }

    ghost predicate Valid()
      reads this
    {
      WellFormed(medium)
    }

    /** Register writes and the command byte; false if `wait_drq` sees the error bit. */
    method Issue(head: byte, low: byte, mid: byte, high: byte) returns (ok: bool)
      modifies this`head, this`low, this`mid, this`high, this`issued, this`transfer
      ensures this.head == head && this.low == low && this.mid == mid && this.high == high
      ensures issued == old(issued) + 1 && transfer == []
      ensures ok == !faults(old(issued))
    {
      this.head, this.low, this.mid, this.high := head, low, mid, high;
      transfer := [];
      ok := !faults(issued);
      issued := issued + 1;
    }

    /** One word to the data port; the 256th completes the sector. */
    method PutWord(w: word)
      requires |transfer| < 256
      modifies this`transfer, this`medium
      ensures transfer == old(transfer) + [w]
      ensures medium == if |transfer| == 256 then old(medium)[SelectedAddress(head, high, mid, low) := transfer]
                        else old(medium)
    {
      transfer := transfer + [w];
      if |transfer| == 256 {
        medium := medium[SelectedAddress(head, high, mid, low) := transfer];
      }
    }

    /** The i-th word of the selected sector from the data port. */
    method GetWord(i: nat) returns (w: word)
      requires Valid() && i < 256
      ensures w == WordsAt(medium, SelectedAddress(head, high, mid, low))[i]
    {
      var address := SelectedAddress(head, high, mid, low);
      w := if address in medium then medium[address][i] else 0;
    }

    ghost function Contents(): (v: Sectors)
      requires Valid()
      reads this
      ensures IsFull(v)
    {
      SectorsOf(medium)
    }

    method ReadSector(lba: nat) returns (ok: bool, buf: seq<byte>)
      requires Valid()
      modifies this`head, this`low, this`mid, this`high, this`issued, this`transfer
      ensures Valid()
      ensures ok == (available && !faults(old(issued)))
      ensures issued == if available then old(issued) + 1 else old(issued)
      ensures |buf| == 512 && (ok ==> buf == Contents()[AddressOf(lba)])
    {
      buf := seq(512, _ => 0);
      if !available { return false, buf; }
      ok := Issue(HeadRegister(lba), LowRegister(lba), MidRegister(lba), HighRegister(lba));
      if !ok { return; }
      RegistersSelect(lba);
      ghost var target := Unpack(WordsAt(medium, AddressOf(lba)));
      for i := 0 to 256
        invariant |buf| == 512
        invariant forall j :: 0 <= j < 2 * i ==> buf[j] == target[j]
        modifies {}
      {
        var w := GetWord(i);
        assert target[2 * i] == w % 256 && target[2 * i + 1] == w / 256;
        buf := buf[2 * i := w % 256];
        buf := buf[2 * i + 1 := w / 256];
      }
    }

    method WriteSector(lba: nat, buf: seq<byte>) returns (ok: bool)
      requires Valid() && |buf| == 512
      modifies this`head, this`low, this`mid, this`high, this`issued, this`transfer, this`medium
      ensures Valid()
      ensures ok == (available && !faults(old(issued)))
      ensures issued == if available then old(issued) + 1 else old(issued)
      ensures Contents() == if ok then old(Contents())[AddressOf(lba) := buf] else old(Contents())
    {
      if !available { return false; }
      ok := Issue(HeadRegister(lba), LowRegister(lba), MidRegister(lba), HighRegister(lba));
      if !ok { return; }
      RegistersSelect(lba);
      StoreIsOneSector(medium, AddressOf(lba), buf);
      for i := 0 to 256
        invariant |transfer| == i && transfer == Pack(buf)[..i]
        invariant medium == if i == 256 then old(medium)[AddressOf(lba) := Pack(buf)] else old(medium)
        modifies this`transfer, this`medium
      {
        hide SectorsOf, WellFormed, SelectedAddress;
        var w := buf[2 * i + 1] as int * 256 + buf[2 * i];
        assert Pack(buf)[..i + 1] == Pack(buf)[..i] + [w];
        PutWord(w);
        assert Pack(buf)[..256] == Pack(buf);
      }
    }
  }
}
