/** Laws of the file-system image: when it round-trips, that every truncation is noticed, and
    that whatever loads has a canonical image no longer than what was read. */
module RamFsCodecLaws {
  import opened Wrappers
  import opened Bytes
  import opened Names
  import opened RamFsCodec

  /** The sizes the length fields can hold: u16 entries, u8 name bytes, u32 file bytes. */
  ghost predicate WellSized(e: Entry) {
    match e
    case File(data) => |data| < 0x1_0000_0000
    case Dir(children) =>
      && |children| < 0x1_0000
      && forall n {:trigger WellSized(children[n])} :: n in children ==> |n| <= 255 && WellSized(children[n])
  }

  // ---------- framed round trip ----------

  lemma {:induction false} ParseHead(kind: byte, name: Name, body: seq<byte>)
    requires |name| <= MAX_NAME
    ensures var s: seq<byte> := [kind, |name|] + (name + body);
            NameEnd(s) == 2 + |name| <= |s| && s[0] == kind && s[2..NameEnd(s)] == name && s[NameEnd(s)..] == body
  {
    var s: seq<byte> := [kind, |name|] + (name + body);
    assert s[2..] == name + body;
    assert s[2..2 + |name|] == s[2..][..|name|] && s[2 + |name|..] == s[2..][|name|..];
  }

  lemma {:induction false} ParseFileHead(name: Name, body: seq<byte>)
    requires |name| <= MAX_NAME && ParseContents(body).Some?
    ensures var (data, rest) := ParseContents(body).value;
            ParseEntry([0, |name|] + (name + body)) == Some((name, File(data), rest))
  {
    ParseHead(0, name, body);
  }

  lemma {:induction false} ParseSubdirHead(name: Name, body: seq<byte>)
    requires |name| <= MAX_NAME && ParseDir(body).Some?
    ensures var (children, rest) := ParseDir(body).value;
            ParseEntry([1, |name|] + (name + body)) == Some((name, Dir(children), rest))
  {
    ParseHead(1, name, body);
  }

  lemma {:induction false} ParseEncodedContents(data: seq<byte>, rest: seq<byte>)
    requires |data| < 0x1_0000_0000
    ensures ParseContents(Le32(|data|) + data + rest) == Some((data, rest))
  {
    var s := Le32(|data|) + data + rest;
    Le32RoundTrip(|data|);
    assert s[4..4 + |data|] == data && s[4 + |data|..] == rest;
  }

  lemma {:induction false} ParseEncodedEntry(name: Name, e: Entry, rest: seq<byte>)
    requires |name| <= MAX_NAME && WellSized(e)
    ensures ParseEntry(EncodeEntry(name, e) + rest) == Some((name, e, rest))
    decreases e, 2
  {
    match e {
      case File(data) =>
        var body := Le32(|data|) + data + rest;
        assert EncodeEntry(name, e) + rest == [0, |name|] + (name + body);
        ParseEncodedContents(data, rest);
        ParseFileHead(name, body);
      case Dir(_) =>
        var body := EncodeDir(e) + rest;
        assert EncodeEntry(name, e) + rest == [1, |name|] + (name + body);
        ParseEncodedDir(e, rest);
        ParseSubdirHead(name, body);
    }
  }

  ghost function Chosen(dir: Entry, names: seq<Name>): Directory
    requires dir.Dir? && forall n :: n in names ==> n in dir.children
  {
    map n | n in names :: dir.children[n]
  }

  lemma {:induction false} ParseCount(count: nat, body: seq<byte>)
    requires count < 0x1_0000
    ensures ParseDir(Le16(count) + body) == ParseEntries(body, count, map[])
  {
    Le16RoundTrip(count);
    assert (Le16(count) + body)[2..] == body;
  }

  lemma {:induction false} ChosenStep(dir: Entry, names: seq<Name>, sofar: Directory)
    requires dir.Dir? && names != [] && forall n :: n in names ==> n in dir.children
    ensures sofar[names[0] := dir.children[names[0]]] + Chosen(dir, names[1..]) == sofar + Chosen(dir, names)
  {
    assert forall n :: n in names <==> n == names[0] || n in names[1..];
  }

  lemma {:induction false} ParseEncodedEntries(dir: Entry, names: seq<Name>, sofar: Directory, rest: seq<byte>)
    requires dir.Dir? && WellSized(dir) && forall n :: n in names ==> n in dir.children
    ensures ParseEntries(EncodeEntries(dir, names) + rest, |names|, sofar) == Some((sofar + Chosen(dir, names), rest))
    decreases dir, 0, |names|
  {
    hide ParseEntry, ParseDir, EncodeEntry, EncodeDir;
    if names == [] {
      assert sofar + Chosen(dir, names) == sofar;
      assert EncodeEntries(dir, names) + rest == rest;
    } else {
      var name, e := names[0], dir.children[names[0]];
      assert WellSized(e);
      var tail := EncodeEntries(dir, names[1..]) + rest;
      assert EncodeEntries(dir, names) + rest == EncodeEntry(name, e) + tail;
      ParseEncodedEntry(name, e, tail);
      EntriesStep(EncodeEntries(dir, names) + rest, |names|, sofar, name, e, tail);
      ParseEncodedEntries(dir, names[1..], sofar[name := e], rest);
      ChosenStep(dir, names, sofar);
    }
  }

  /** The image of a directory, whatever follows it, decodes to the directory and leaves exactly
      what follows. */
  lemma {:induction false} ParseEncodedDir(dir: Entry, rest: seq<byte>)
    requires dir.Dir? && WellSized(dir)
    ensures ParseDir(EncodeDir(dir) + rest) == Some((dir.children, rest))
    decreases dir, 1
  {
    hide ParseEntry, ParseEntries, ParseDir, EncodeEntry, EncodeEntries, SortedNames, FromLe16;
    var names := SortedNames(dir.children.Keys);
    var body := EncodeEntries(dir, names) + rest;
    assert EncodeDir(dir) + rest == Le16(|names|) + body;
    ParseCount(|names|, body);
    ParseEncodedEntries(dir, names, map[], rest);
    assert map[] + Chosen(dir, names) == dir.children;
  }

  /** The same with the position the source keeps: started at the first byte of the image, the
      decoder stops right behind its last byte. */
  method DecodeFramed(pre: seq<byte>, dir: Entry, rest: seq<byte>, image: seq<byte>)
    returns (r: Option<Directory>, pos: nat)
    requires dir.Dir? && WellSized(dir) && image == EncodeDir(dir)
    ensures r == Some(dir.children) && pos == |pre| + |image|
  {
    var data := pre + image + rest;
    assert data[|pre|..] == image + rest;
    ParseEncodedDir(dir, rest);
    r, pos := DeserializeDir(data, |pre|);
    assert |data[pos..]| == |rest|;
  }

  // ---------- whatever parses is well sized ----------

  lemma {:induction false} ParsedEntryIsWellSized(s: seq<byte>)
    requires ParseEntry(s).Some?
    ensures |ParseEntry(s).value.0| <= MAX_NAME && WellSized(ParseEntry(s).value.1)
    decreases |s|, 0
  {
    if s[0] == 1 {
      ParsedDirIsWellSized(s[NameEnd(s)..]);
    }
  }

  lemma {:induction false} InsertedIsWellSized(dir: Directory, name: Name, e: Entry)
    requires WellSized(Dir(dir)) && |dir| + 1 < 0x1_0000
    requires |name| <= MAX_NAME && WellSized(e)
    ensures WellSized(Dir(dir[name := e])) && |dir[name := e]| <= |dir| + 1
  {
    assert dir[name := e].Keys == dir.Keys + {name};
    forall n | n in dir[name := e] ensures |n| <= MAX_NAME && WellSized(dir[name := e][n]) {
      if n != name { assert WellSized(dir[n]); }
    }
  }

  lemma {:induction false} ParsedEntriesAreWellSized(s: seq<byte>, count: nat, sofar: Directory)
    requires ParseEntries(s, count, sofar).Some?
    requires WellSized(Dir(sofar)) && |sofar| + count < 0x1_0000
    ensures WellSized(Dir(ParseEntries(s, count, sofar).value.0))
    decreases |s|, 1
  {
    if count > 0 {
      ParsedEntryIsWellSized(s);
      var (name, e, rest) := ParseEntry(s).value;
      InsertedIsWellSized(sofar, name, e);
      ParsedEntriesAreWellSized(rest, count - 1, sofar[name := e]);
    }
  }

  lemma {:induction false} ParsedDirIsWellSized(s: seq<byte>)
    requires ParseDir(s).Some?
    ensures WellSized(Dir(ParseDir(s).value.0))
    decreases |s|, 2
  {
    ParsedEntriesAreWellSized(s[2..], FromLe16(s[0], s[1]), map[]);
  }

  /** `RamFs::load_from`. Bytes behind the root directory are ignored. */
  function LoadFrom(data: seq<byte>): Option<Directory> {
    match ParseDir(data)
    case None => None
    case Some((root, _)) => Some(root)
  }

  /** `RamFs::serialize`. */
  ghost function Serialize(root: Directory): seq<byte> {
    EncodeDir(Dir(root))
  }

  lemma {:induction false} LoadSerialized(root: Directory, rest: seq<byte>)
    requires WellSized(Dir(root))
    ensures ParseDir(Serialize(root) + rest) == Some((root, rest))
    ensures LoadFrom(Serialize(root)) == Some(root) && LoadFrom(Serialize(root) + rest) == Some(root)
  {
    ParseEncodedDir(Dir(root), rest);
    ParseEncodedDir(Dir(root), []);
    assert Serialize(root) + [] == Serialize(root);
  }

  /** The image brings a tree back exactly when every size fits its field; an over-long name,
      an over-full directory or an over-large file anywhere in the tree always spoils it. */
  lemma {:induction false} RoundTripIff(root: Directory)
    ensures LoadFrom(Serialize(root)) == Some(root) <==> WellSized(Dir(root))
  {
    if WellSized(Dir(root)) {
      LoadSerialized(root, []);
    }
    if LoadFrom(Serialize(root)) == Some(root) {
      ParsedDirIsWellSized(Serialize(root));
    }
  }

  // ---------- the decoder depends on exactly the bytes it consumes ----------

  /** `cut` is `s` shortened. If `s` leaves `rest`, the cut input fails when the cut reaches into
      the consumed part, and otherwise leaves `rest` shortened by the same amount. */
  lemma {:induction false} ParseContentsOfPrefix(s: seq<byte>, cut: seq<byte>)
    requires cut <= s && ParseContents(s).Some?
    ensures var (data, rest) := ParseContents(s).value;
            if |s| - |rest| <= |cut| then
              ParseContents(cut) == Some((data, rest[..|cut| - (|s| - |rest|)]))
            else ParseContents(cut) == None
  {
    if 4 <= |cut| {
      var length := FromLe32(s[0], s[1], s[2], s[3]);
      if 4 + length <= |cut| {
        assert cut[4..4 + length] == s[4..4 + length];
        assert cut[4 + length..] == s[4 + length..][..|cut| - (4 + length)];
      }
    }
  }

  lemma {:induction false} ParseEntryOfPrefix(s: seq<byte>, cut: seq<byte>)
    requires cut <= s && ParseEntry(s).Some?
    ensures var (name, e, rest) := ParseEntry(s).value;
            if |s| - |rest| <= |cut| then
              ParseEntry(cut) == Some((name, e, rest[..|cut| - (|s| - |rest|)]))
            else ParseEntry(cut) == None
    decreases |s|, 0
  {
    if 2 <= |cut| && NameEnd(s) <= |cut| {
      var at := NameEnd(s);
      assert cut[2..at] == s[2..at];
      assert cut[at..] <= s[at..];
      if s[0] == 0 {
        ParseContentsOfPrefix(s[at..], cut[at..]);
      } else {
        ParseDirOfPrefix(s[at..], cut[at..]);
      }
    }
  }

  lemma {:induction false} ParseEntriesOfPrefix(s: seq<byte>, cut: seq<byte>, count: nat, sofar: Directory)
    requires cut <= s && ParseEntries(s, count, sofar).Some?
    ensures var (dir, rest) := ParseEntries(s, count, sofar).value;
            if |s| - |rest| <= |cut| then
              ParseEntries(cut, count, sofar) == Some((dir, rest[..|cut| - (|s| - |rest|)]))
            else ParseEntries(cut, count, sofar) == None
    decreases |s|, 1
  {
    hide ParseEntry;
    if count == 0 {
      assert s[..|cut|] == cut;
    } else {
      var (name, e, rest) := ParseEntry(s).value;
      ParseEntryOfPrefix(s, cut);
      if |s| - |rest| <= |cut| {
        var restCut := rest[..|cut| - (|s| - |rest|)];
        EntriesStep(s, count, sofar, name, e, rest);
        EntriesStep(cut, count, sofar, name, e, restCut);
        ParseEntriesOfPrefix(rest, restCut, count - 1, sofar[name := e]);
      }
    }
  }

  lemma {:induction false} EntriesStep(s: seq<byte>, count: nat, sofar: Directory,
                                       name: Name, e: Entry, rest: seq<byte>)
    requires count > 0 && ParseEntry(s) == Some((name, e, rest))
    ensures ParseEntries(s, count, sofar) == ParseEntries(rest, count - 1, sofar[name := e])
  {
  }

  lemma {:induction false} ParseDirOfPrefix(s: seq<byte>, cut: seq<byte>)
    requires cut <= s && ParseDir(s).Some?
    ensures var (dir, rest) := ParseDir(s).value;
            if |s| - |rest| <= |cut| then
              ParseDir(cut) == Some((dir, rest[..|cut| - (|s| - |rest|)]))
            else ParseDir(cut) == None
    decreases |s|, 2
  {
    if 2 <= |cut| {
      assert cut[2..] <= s[2..];
      ParseEntriesOfPrefix(s[2..], cut[2..], FromLe16(s[0], s[1]), map[]);
    }
  }

  lemma {:induction false} TruncationIsDetected(root: Directory, k: nat)
    requires WellSized(Dir(root)) && k < |Serialize(root)|
    ensures LoadFrom(Serialize(root)[..k]) == None
  {
    LoadSerialized(root, []);
    assert Serialize(root) + [] == Serialize(root);
    ParseDirOfPrefix(Serialize(root), Serialize(root)[..k]);
  }

  // ---------- normalisation: length of the canonical image ----------

  lemma {:induction false} EncodeEntriesFrame(a: Entry, b: Entry, names: seq<Name>)
    requires a.Dir? && b.Dir?
    requires forall n :: n in names ==> n in a.children && n in b.children && a.children[n] == b.children[n]
    ensures EncodeEntries(a, names) == EncodeEntries(b, names)
    decreases |names|
  {
    if names != [] {
      EncodeEntriesFrame(a, b, names[1..]);
    }
  }

  lemma {:induction false} EncodeEntriesPick(dir: Entry, names: seq<Name>, i: nat)
    requires dir.Dir? && i < |names| && forall n :: n in names ==> n in dir.children
    ensures |EncodeEntries(dir, names)|
         == |EncodeEntry(names[i], dir.children[names[i]])| + |EncodeEntries(dir, names[..i] + names[i + 1..])|
  {
    hide EncodeEntry, IsUtf8;
    EncodeEntriesConcat(dir, names[..i], names[i + 1..]);
    EncodeEntriesConcat(dir, names[..i], names[i..]);
    assert names == names[..i] + names[i..];
    assert names[i..][1..] == names[i + 1..];
  }

  lemma TailIsDistinct(a: seq<Name>)
    requires Distinct(a) && a != []
    ensures Distinct(a[1..])
  {
  }

  lemma PickLeavesRest(a: seq<Name>, b: seq<Name>, i: nat)
    requires Distinct(a) && Distinct(b) && (forall n :: n in a <==> n in b)
    requires a != [] && i < |b| && b[i] == a[0]
    ensures var rest := b[..i] + b[i + 1..]; Distinct(rest) && forall n :: n in a[1..] <==> n in rest
  {
    hide IsUtf8;
    var rest := b[..i] + b[i + 1..];
    forall n ensures n in a[1..] <==> n in rest {
      assert n in a[1..] <==> n in a && n != a[0];
      assert n in rest <==> n in b && n != b[i];
    }
  }

  /** The order of the entries does not change the length. */
  lemma {:induction false} EncodeEntriesPermuted(dir: Entry, a: seq<Name>, b: seq<Name>)
    requires dir.Dir? && forall n :: n in a ==> n in dir.children
    requires Distinct(a) && Distinct(b) && forall n :: n in a <==> n in b
    ensures |EncodeEntries(dir, a)| == |EncodeEntries(dir, b)|
    decreases |a|
  {
    hide EncodeEntry, IsUtf8, Distinct;
    assert b == [] || b[0] in a;
    if a != [] {
      assert a[0] in b;
      var i :| 0 <= i < |b| && b[i] == a[0];
      EncodeEntriesPick(dir, b, i);
      PickLeavesRest(a, b, i);
      assert Distinct(a[1..]) by { TailIsDistinct(a); }
      EncodeEntriesPermuted(dir, a[1..], b[..i] + b[i + 1..]);
    }
  }

  ghost function BodyLength(m: Directory): nat {
    |EncodeEntries(Dir(m), SortedNames(m.Keys))|
  }

  /** The listing of a directory after an insertion, without the inserted name. */
  lemma {:induction false} ListingWithout(keys: set<Name>, name: Name) returns (i: nat, others: seq<Name>)
    ensures var listing := SortedNames(keys + {name});
            && i < |listing| && listing[i] == name
            && others == listing[..i] + listing[i + 1..]
    ensures Distinct(others) && forall n :: n in others <==> n in keys && n != name
  {
    var listing := SortedNames(keys + {name});
    SortedNamesAscend(keys + {name});
    assert name in listing;
    i :| 0 <= i < |listing| && listing[i] == name;
    others := listing[..i] + listing[i + 1..];
    assert forall n :: n in others <==> n in listing && n != name;
  }

  lemma {:induction false} BodyWithout(m: Directory, name: Name, others: seq<Name>)
    requires Distinct(others) && forall n :: n in others <==> n in m && n != name
    ensures |EncodeEntries(Dir(m), others)| <= BodyLength(m)
  {
    SortedNamesAscend(m.Keys);
    if name in m {
      EncodeEntriesPermuted(Dir(m), [name] + others, SortedNames(m.Keys));
      EncodeEntriesConcat(Dir(m), [name], others);
    } else {
      EncodeEntriesPermuted(Dir(m), others, SortedNames(m.Keys));
    }
  }

  lemma {:induction false} InsertionLengthens(m: Directory, name: Name, e: Entry)
    ensures BodyLength(m[name := e]) <= BodyLength(m) + |EncodeEntry(name, e)|
  {
    var m' := m[name := e];
    assert m'.Keys == m.Keys + {name};
    var i, others := ListingWithout(m.Keys, name);
    EncodeEntriesPick(Dir(m'), SortedNames(m'.Keys), i);
    EncodeEntriesFrame(Dir(m), Dir(m'), others);
    BodyWithout(m, name, others);
  }

  lemma {:induction false} ParsedEntryCoversImage(s: seq<byte>)
    requires ParseEntry(s).Some?
    ensures var (name, e, rest) := ParseEntry(s).value; |EncodeEntry(name, e)| + |rest| <= |s|
    decreases |s|, 0
  {
    if s[0] == 1 {
      ParsedDirCoversImage(s[NameEnd(s)..]);
    }
  }

  lemma {:induction false} ParsedEntriesCoverImage(s: seq<byte>, count: nat, sofar: Directory)
    requires ParseEntries(s, count, sofar).Some?
    ensures var (dir, rest) := ParseEntries(s, count, sofar).value;
            BodyLength(dir) + |rest| <= BodyLength(sofar) + |s|
    decreases |s|, 1
  {
    if count > 0 {
      ParsedEntryCoversImage(s);
      var (name, e, rest) := ParseEntry(s).value;
      InsertionLengthens(sofar, name, e);
      ParsedEntriesCoverImage(rest, count - 1, sofar[name := e]);
    }
  }

  lemma {:induction false} ParsedDirCoversImage(s: seq<byte>)
    requires ParseDir(s).Some?
    ensures var (dir, rest) := ParseDir(s).value; |EncodeDir(Dir(dir))| + |rest| <= |s|
    decreases |s|, 2
  {
    ParsedEntriesCoverImage(s[2..], FromLe16(s[0], s[1]), map[]);
    EmptyBody();
  }

  lemma {:induction false} EmptyBody()
    ensures BodyLength(map[]) == 0
  {
    var none: Directory := map[];
    assert SortedNames(none.Keys) == [];
  }

  /** Whatever loads (duplicate or unsorted names included) is well sized, reloads to itself
      from its own image, and that image is no longer than the bytes that were consumed. */
  lemma {:induction false} LoadedInputNormalises(data: seq<byte>)
    requires LoadFrom(data).Some?
    ensures var (root, rest) := ParseDir(data).value;
            && LoadFrom(data) == Some(root)
            && WellSized(Dir(root))
            && LoadFrom(Serialize(root)) == Some(root)
            && |Serialize(root)| <= |data| - |rest|
  {
    ParsedDirIsWellSized(data);
    RoundTripIff(LoadFrom(data).value);
    ParsedDirCoversImage(data);
  }
}
