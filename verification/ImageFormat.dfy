/** The file-system image in numbers, and exactly which bytes the decoder accepts. */
module ImageFormat {
  import opened Wrappers
  import opened Bytes
  import opened Names
  import opened RamFsCodec
  import opened RamFsCodecLaws

  // ---------- what is written ----------

  /** Four bytes at `i`, low byte first. */
  ghost predicate LengthAt(s: seq<byte>, i: nat, n: nat) {
    && i + 4 <= |s|
    && n == s[i] as int + 0x100 * s[i + 1] as int + 0x1_0000 * s[i + 2] as int + 0x100_0000 * s[i + 3] as int
  }

  lemma FileLayout(name: Name, data: seq<byte>)
    requires |name| <= 255 && |data| < 0x1_0000_0000
    ensures var e, n := EncodeEntry(name, File(data)), |name|;
            && |e| == 6 + n + |data| && e[0] == 0 && e[1] as int == n && e[2..2 + n] == name
            && LengthAt(e, 2 + n, |data|) && e[6 + n..] == data
  {
    hide Le32;
    var e, n, field := EncodeEntry(name, File(data)), |name|, Le32(|data|);
    LittleEndian(|data|);
    assert e == [0, |name|] + name + field + data;
    assert e[2 + n] == field[0] && e[3 + n] == field[1] && e[4 + n] == field[2] && e[5 + n] == field[3];
  }

  lemma SubdirLayout(name: Name, children: Directory)
    requires |name| <= 255
    ensures EncodeEntry(name, Dir(children)) == [1, |name|] + name + EncodeDir(Dir(children))
  {
  }

  /** A longer name is cut off after 255 bytes. */
  lemma LongNameLayout(name: Name, e: Entry)
    requires |name| > 255
    ensures var r := EncodeEntry(name, e); |r| >= 257 && r[1] == 255 && r[2..257] == name[..255]
  {
    hide EncodeDir, Le32;
  }

  /** A directory holding file `b` with one byte and an empty directory `a`: in ascending order. */
  lemma {:induction false} ImageInNumbers(a: Name, b: Name)
    requires a == [0x61] && b == [0x62]
    ensures Serialize(map[b := File([7]), a := Dir(map[])])
         == [2, 0, 1, 1, 0x61, 0, 0, 0, 1, 0x62, 1, 0, 0, 0, 7]
  {
    var root: Directory := map[b := File([7]), a := Dir(map[])];
    EntriesInNumbers(a, b);
    hide EncodeEntry, EncodeDir, IsUtf8, Less;
    DirOfTwo(root, a, b);
    CountTwo();
    Glue(Le16(2), EncodeEntry(a, root[a]), EncodeEntry(b, root[b]));
  }

  lemma DirOfTwo(root: Directory, a: Name, b: Name)
    requires root.Keys == {a, b} && a == [0x61] && b == [0x62]
    ensures EncodeDir(Dir(root)) == Le16(2) + (EncodeEntry(a, root[a]) + EncodeEntry(b, root[b]))
  {
    hide EncodeEntry, EncodeEntries, Le16, IsUtf8;
    TwoInOrder(a, b);
    TwoEntries(Dir(root), a, b);
    assert |root| == |root.Keys| == 2;
  }

  lemma Glue(count: seq<byte>, first: seq<byte>, second: seq<byte>)
    requires count == [2, 0] && first == [1, 1, 0x61, 0, 0] && second == [0, 1, 0x62, 1, 0, 0, 0, 7]
    ensures count + (first + second) == [2, 0, 1, 1, 0x61, 0, 0, 0, 1, 0x62, 1, 0, 0, 0, 7]
  {
  }

  lemma TwoEntries(dir: Entry, a: Name, b: Name)
    requires dir.Dir? && a in dir.children && b in dir.children
    ensures EncodeEntries(dir, [a, b]) == EncodeEntry(a, dir.children[a]) + EncodeEntry(b, dir.children[b])
  {
    hide EncodeEntry;
    assert [a, b][1..] == [b] && [b][1..] == [];
    assert EncodeEntries(dir, [b]) == EncodeEntry(b, dir.children[b]) + [];
    assert EncodeEntry(b, dir.children[b]) + [] == EncodeEntry(b, dir.children[b]);
  }

  lemma CountTwo()
    ensures Le16(2) == [2, 0]
  {
  }

  lemma TwoInOrder(a: Name, b: Name)
    requires Less(a, b) && a != b
    ensures SortedNames({a, b}) == [a, b]
  {
    SortedNamesAscend({a, b});
    AscendingUnique(SortedNames({a, b}), [a, b]);
  }

  lemma EntriesInNumbers(a: Name, b: Name)
    requires a == [0x61] && b == [0x62]
    ensures EncodeEntry(a, Dir(map[])) == [1, 1, 0x61, 0, 0]
    ensures EncodeEntry(b, File([7])) == [0, 1, 0x62, 1, 0, 0, 0, 7]
  {
    var none: Directory := map[];
    assert SortedNames(none.Keys) == [];
    assert EncodeDir(Dir(none)) == [0, 0];
    assert Le32(1) == [1, 0, 0, 0];
  }

  // ---------- what is accepted ----------

  /** A file is decoded exactly from its own encoding. */
  lemma {:induction false} FileDecodesIff(s: seq<byte>, name: Name, data: seq<byte>, rest: seq<byte>)
    ensures ParseEntry(s) == Some((name, File(data), rest))
       <==> |name| <= 255 && |data| < 0x1_0000_0000 && s == EncodeEntry(name, File(data)) + rest
  {
    if |name| <= 255 && |data| < 0x1_0000_0000 && s == EncodeEntry(name, File(data)) + rest {
      ParseEncodedEntry(name, File(data), rest);
    }
    if ParseEntry(s) == Some((name, File(data), rest)) {
      DecodedFile(s, name, data, rest);
    }
  }

  lemma DecodedFile(s: seq<byte>, name: Name, data: seq<byte>, rest: seq<byte>)
    requires ParseEntry(s) == Some((name, File(data), rest))
    ensures |name| <= 255 && |data| < 0x1_0000_0000 && s == EncodeEntry(name, File(data)) + rest
  {
    hide IsUtf8, ParseEntry, ParseContents, EncodeEntry, Le32;
    FilePart(s, name, data, rest);
    DecodedContents(s[NameEnd(s)..], data, rest);
    Split(s, name);
    EncodedFile(name, data);
    Rejoin([s[0], s[1]], name, Le32(|data|), data, rest);
  }

  lemma EncodedFile(name: Name, data: seq<byte>)
    requires |name| <= 255 && |data| < 0x1_0000_0000
    ensures EncodeEntry(name, File(data)) == [0, |name|] + name + Le32(|data|) + data
  {
    hide IsUtf8, Le32;
  }

  lemma FilePart(s: seq<byte>, name: Name, data: seq<byte>, rest: seq<byte>)
    requires ParseEntry(s) == Some((name, File(data), rest))
    ensures |s| >= 2 && |s| >= NameEnd(s) && s[0] == 0 && name == s[2..NameEnd(s)]
    ensures ParseContents(s[NameEnd(s)..]) == Some((data, rest))
  {
    hide IsUtf8, ParseDir, ParseContents;
  }

  lemma Split(s: seq<byte>, name: seq<byte>)
    requires |s| >= 2 && |s| >= NameEnd(s) && name == s[2..NameEnd(s)]
    ensures s == [s[0], s[1]] + name + s[NameEnd(s)..] && |name| == s[1] as int
  {
  }

  lemma Rejoin(a: seq<byte>, b: seq<byte>, c: seq<byte>, d: seq<byte>, e: seq<byte>)
    ensures a + b + (c + d + e) == a + b + c + d + e
  {
  }

  lemma DecodedContents(s: seq<byte>, data: seq<byte>, rest: seq<byte>)
    requires ParseContents(s) == Some((data, rest))
    ensures |data| < 0x1_0000_0000 && s == Le32(|data|) + data + rest
  {
    hide FromLe32, Le32;
    BytesOfLength(s[0], s[1], s[2], s[3]);
    assert s == s[..4] + data + rest;
    assert s[..4] == [s[0], s[1], s[2], s[3]];
  }

  lemma BytesOfLength(b0: byte, b1: byte, b2: byte, b3: byte)
    ensures Le32(FromLe32(b0, b1, b2, b3)) == [b0, b1, b2, b3]
  {
    hide Le16, FromLe16;
    BytesOfCount(b0, b1);
    BytesOfCount(b2, b3);
    Halves(FromLe16(b0, b1), FromLe16(b2, b3));
  }

  lemma BytesOfCount(b0: byte, b1: byte)
    ensures Le16(FromLe16(b0, b1)) == [b0, b1]
  {
  }

  lemma Halves(lo: nat, hi: nat)
    requires lo < 0x1_0000
    ensures (lo + 0x1_0000 * hi) % 0x1_0000 == lo && (lo + 0x1_0000 * hi) / 0x1_0000 == hi
  {
  }

  /** A subdirectory is decoded exactly from its name and whatever decodes to its entries. */
  lemma {:induction false} SubdirDecodesIff(s: seq<byte>, name: Name, children: Directory, rest: seq<byte>)
    ensures ParseEntry(s) == Some((name, Dir(children), rest))
       <==> exists body ::
              |name| <= 255 && s == [1, |name|] + (name + body) && ParseDir(body) == Some((children, rest))
  {
    hide ParseDir, IsUtf8;
    if ParseEntry(s) == Some((name, Dir(children), rest)) {
      var body := s[NameEnd(s)..];
      assert s == [1, |name|] + (name + body);
    }
    if body :| |name| <= 255 && s == [1, |name|] + (name + body) && ParseDir(body) == Some((children, rest)) {
      ParseSubdirHead(name, body);
    }
  }

  type Listing = seq<(Name, Entry)>

  /** These entries stand one behind the other at the beginning of `s`, and leave `rest`. */
  ghost predicate Lists(s: seq<byte>, es: Listing, rest: seq<byte>)
    decreases |es|
  {
    if es == [] then s == rest
    else
      var head := ParseEntry(s);
      head.Some? && head.value.0 == es[0].0 && head.value.1 == es[0].1 && Lists(head.value.2, es[1..], rest)
  }

  /** Entry `i` is the last one with its name. */
  ghost predicate IsLast(es: Listing, i: nat) {
    i < |es| && forall j :: i < j < |es| ==> es[j].0 != es[i].0
  }

  /** The directory has exactly the listed names, and of several entries of one name the last. */
  ghost predicate Holds(dir: Directory, es: Listing) {
    && (forall i :: 0 <= i < |es| ==> es[i].0 in dir)
    && (forall n :: n in dir ==> exists i: nat :: IsLast(es, i) && es[i].0 == n && dir[n] == es[i].1)
  }

  /** A directory is decoded exactly from a 16-bit count, low byte first, and so many entries. */
  lemma {:induction false} DirDecodesIff(s: seq<byte>, dir: Directory, rest: seq<byte>)
    ensures ParseDir(s) == Some((dir, rest))
       <==> |s| >= 2 && exists es: Listing ::
              |es| == s[0] as int + 0x100 * s[1] as int && Lists(s[2..], es, rest) && Holds(dir, es)
  {
    hide Lists, Holds, ParseEntries;
    if ParseDir(s) == Some((dir, rest)) {
      var es := Listed(s[2..], FromLe16(s[0], s[1]), map[]);
      InsertedHolds(es);
    }
    if es: Listing :|
      |s| >= 2 && |es| == s[0] as int + 0x100 * s[1] as int && Lists(s[2..], es, rest) && Holds(dir, es)
    {
      ListedParses(s[2..], es, rest, map[]);
      InsertedHolds(es);
      HoldsIsUnique(dir, Inserted(map[], es), es);
    }
  }

  ghost function Inserted(sofar: Directory, es: Listing): Directory {
    if es == [] then sofar else Inserted(sofar, es[..|es| - 1])[es[|es| - 1].0 := es[|es| - 1].1]
  }

  lemma {:induction false} InsertedFirst(sofar: Directory, es: Listing)
    requires es != []
    ensures Inserted(sofar, es) == Inserted(sofar[es[0].0 := es[0].1], es[1..])
  {
    var n := |es| - 1;
    if n > 0 {
      InsertedFirst(sofar, es[..n]);
      assert es[..n][1..] == es[1..][..n - 1];
    }
  }

  lemma {:induction false} Listed(s: seq<byte>, count: nat, sofar: Directory) returns (es: Listing)
    requires ParseEntries(s, count, sofar).Some?
    ensures var (dir, rest) := ParseEntries(s, count, sofar).value;
            |es| == count && Lists(s, es, rest) && dir == Inserted(sofar, es)
    decreases count
  {
    hide ParseEntry;
    if count == 0 {
      es := [];
    } else {
      var (name, e, rest) := ParseEntry(s).value;
      es := Listed(rest, count - 1, sofar[name := e]);
      es := [(name, e)] + es;
      InsertedFirst(sofar, es);
    }
  }

  lemma {:induction false} ListedParses(s: seq<byte>, es: Listing, rest: seq<byte>, sofar: Directory)
    requires Lists(s, es, rest)
    ensures ParseEntries(s, |es|, sofar) == Some((Inserted(sofar, es), rest))
    decreases |es|
  {
    hide ParseEntry;
    if es != [] {
      ListedParses(ParseEntry(s).value.2, es[1..], rest, sofar[es[0].0 := es[0].1]);
      InsertedFirst(sofar, es);
    }
  }

  lemma {:induction false} InsertedHolds(es: Listing)
    ensures Holds(Inserted(map[], es), es)
  {
    hide Holds;
    if es == [] {
      NothingHolds();
    } else {
      var n := |es| - 1;
      InsertedHolds(es[..n]);
      HoldsOneMore(Inserted(map[], es[..n]), es[..n], es[n]);
      assert es == es[..n] + [es[n]];
    }
  }

  lemma NothingHolds()
    ensures Holds(map[], [])
  {
  }

  lemma HoldsOneMore(dir: Directory, es: Listing, last: (Name, Entry))
    requires Holds(dir, es)
    ensures Holds(dir[last.0 := last.1], es + [last])
  {
    hide IsUtf8;
    var es', dir' := es + [last], dir[last.0 := last.1];
    assert IsLast(es', |es|);
    forall name | name in dir' ensures exists i: nat :: IsLast(es', i) && es'[i].0 == name && dir'[name] == es'[i].1 {
      if name != last.0 {
        var i: nat :| IsLast(es, i) && es[i].0 == name && dir[name] == es[i].1;
        assert IsLast(es', i);
      }
    }
  }

  lemma HoldsIsUnique(a: Directory, b: Directory, es: Listing)
    requires Holds(a, es) && Holds(b, es)
    ensures a == b
  {
    forall n ensures (n in a <==> n in b) && (n in a && n in b ==> a[n] == b[n]) {
    }
    assert a.Keys == b.Keys;
  }

  /** Loading takes the directory at the beginning and ignores what is behind it. */
  lemma LoadsIff(data: seq<byte>, root: Directory)
    ensures LoadFrom(data) == Some(root) <==> exists rest :: ParseDir(data) == Some((root, rest))
  {
    hide ParseDir;
  }
}
