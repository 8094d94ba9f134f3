/** The directory tree of the RAM file system and its binary image: the recursive encoder and
    the bounds-checked recursive decoder, as functions, and the loops that compute them. */
module RamFsCodec {
  import opened Wrappers
  import opened Bytes
  import opened Names

  type Directory = map<Name, Entry>
  datatype Entry = File(data: seq<byte>) | Dir(children: Directory)

  const MAX_NAME: nat := 255

  // ---------- encoder ----------

  function StoredName(name: Name): (r: seq<byte>)
    ensures |r| <= MAX_NAME
  {
    if |name| <= MAX_NAME then name else name[..MAX_NAME]
  }

  /** One entry: type byte, name length, name, then either length and contents or a directory. */
  ghost function EncodeEntry(name: Name, e: Entry): seq<byte>
    decreases e, 2
  {
    var stored := StoredName(name);
    match e
    case File(data) => [0, |stored|] + stored + Le32(|data| % 0x1_0000_0000) + data
    case Dir(_) => [1, |stored|] + stored + EncodeDir(e)
  }

  ghost function EncodeEntries(dir: Entry, names: seq<Name>): seq<byte>
    requires dir.Dir? && forall n :: n in names ==> n in dir.children
    decreases dir, 0, |names|
  {
    if names == [] then []
    else EncodeEntry(names[0], dir.children[names[0]]) + EncodeEntries(dir, names[1..])
  }

  ghost function EncodeDir(dir: Entry): seq<byte>
    requires dir.Dir?
    decreases dir, 1
  {
    Le16(|dir.children| % 0x1_0000) + EncodeEntries(dir, SortedNames(dir.children.Keys))
  }

  // ---------- decoder ----------

  // The decoders work on the unread input and return what is left of it.

  function NameEnd(s: seq<byte>): nat
    requires |s| >= 2
  {
    s[1] as nat + 2
  }

  function ParseEntry(s: seq<byte>): (r: Option<(Name, Entry, seq<byte>)>)
    ensures r.Some? ==> |r.value.2| + 2 <= |s|
    decreases |s|, 0
  {
    if |s| < 2 || |s| < NameEnd(s) || !IsUtf8(s[2..NameEnd(s)]) then None
    else
      var name: Name := s[2..NameEnd(s)];
      var body := s[NameEnd(s)..];
      if s[0] == 0 then
        match ParseContents(body)
        case None => None
        case Some((data, rest)) => Some((name, File(data), rest))
      else if s[0] == 1 then
        match ParseDir(body)
        case None => None
        case Some((children, rest)) => Some((name, Dir(children), rest))
      else None
  }

  function ParseContents(s: seq<byte>): (r: Option<(seq<byte>, seq<byte>)>)
    ensures r.Some? ==> |r.value.1| <= |s|
  {
    if |s| < 4 then None
    else
      var length := FromLe32(s[0], s[1], s[2], s[3]);
      if |s| < 4 + length then None
      else Some((s[4..4 + length], s[4 + length..]))
  }

  /** `count` more entries, inserted one by one into `dir`. */
  function ParseEntries(s: seq<byte>, count: nat, dir: Directory): (r: Option<(Directory, seq<byte>)>)
    ensures r.Some? ==> |r.value.1| <= |s|
    decreases |s|, 1
  {
    if count == 0 then Some((dir, s))
    else
      match ParseEntry(s)
      case None => None
      case Some((name, e, rest)) => ParseEntries(rest, count - 1, dir[name := e])
  }

  function ParseDir(s: seq<byte>): (r: Option<(Directory, seq<byte>)>)
    ensures r.Some? ==> |r.value.1| + 2 <= |s|
    decreases |s|, 2
  {
    if |s| < 2 then None
    else ParseEntries(s[2..], FromLe16(s[0], s[1]), map[])
  }

  lemma {:induction false} EncodeEntriesConcat(dir: Entry, a: seq<Name>, b: seq<Name>)
    requires dir.Dir? && (forall n :: n in a ==> n in dir.children) && (forall n :: n in b ==> n in dir.children)
    ensures forall n :: n in a + b ==> n in dir.children
    ensures EncodeEntries(dir, a + b) == EncodeEntries(dir, a) + EncodeEntries(dir, b)
    decreases |a|
  {
    hide EncodeEntry, IsUtf8;
    if a == [] {
      assert a + b == b;
    } else {
      EncodeEntriesConcat(dir, a[1..], b);
      assert (a + b)[1..] == a[1..] + b;
      var head, front, back := EncodeEntry(a[0], dir.children[a[0]]), EncodeEntries(dir, a[1..]), EncodeEntries(dir, b);
      assert head + (front + back) == (head + front) + back;
    }
  }

  /** What `serialize_dir` has appended after the count once `i` entries are done. */
  ghost function EncodedSoFar(dir: Entry, i: nat): seq<byte>
    requires dir.Dir? && i <= |dir.children.Keys|
  {
    EncodeEntries(dir, SortedNames(dir.children.Keys)[..i])
  }

  lemma EncodedOneMore(dir: Entry, i: nat)
    requires dir.Dir? && i < |dir.children.Keys|
    ensures SortedNames(dir.children.Keys)[i] in dir.children
    ensures EncodedSoFar(dir, i + 1)
         == EncodedSoFar(dir, i)
          + EncodeEntry(SortedNames(dir.children.Keys)[i], dir.children[SortedNames(dir.children.Keys)[i]])
  {
    var names := SortedNames(dir.children.Keys);
    EncodeEntriesConcat(dir, names[..i], [names[i]]);
    assert names[..i + 1] == names[..i] + [names[i]];
    assert EncodeEntries(dir, [names[i]]) == EncodeEntry(names[i], dir.children[names[i]]) + EncodeEntries(dir, []);
  }

  lemma NothingSoFar(dir: Entry)
    requires dir.Dir?
    ensures EncodedSoFar(dir, 0) == []
  {
  }

  lemma EncodedInFull(before: seq<byte>, dir: Entry)
    requires dir.Dir?
    ensures before + Le16(|dir.children| % 0x1_0000) + EncodedSoFar(dir, |dir.children.Keys|) == before + EncodeDir(dir)
  {
    var names := SortedNames(dir.children.Keys);
    assert names[..|names|] == names;
    assert EncodeDir(dir) == Le16(|dir.children| % 0x1_0000) + EncodedSoFar(dir, |dir.children.Keys|);
  }

  // ---------- the loops of the source ----------

  /** `serialize_dir`: appends to the output buffer, entry by entry in key order. */
  method SerializeDir(dir: Entry, before: seq<byte>) returns (out: seq<byte>)
    requires dir.Dir?
    ensures out == before + EncodeDir(dir)
    decreases dir, 0
  {
    hide EncodedSoFar, EncodeDir, EncodeEntry, Le16, IsUtf8;
    var names := KeysInOrder(dir.children.Keys);
    NothingSoFar(dir);
    out := before + Le16(|dir.children| % 0x1_0000);
    ghost var start := out;
    for i := 0 to |names|
      invariant out == start + EncodedSoFar(dir, i)
    {
      assert EncodedSoFar(dir, i + 1) == EncodedSoFar(dir, i) + EncodeEntry(names[i], dir.children[names[i]]) by {
        EncodedOneMore(dir, i);
      }
      out := SerializeEntry(names[i], dir.children[names[i]], out);
    }
    assert out == before + EncodeDir(dir) by { EncodedInFull(before, dir); }
  }

  /** One turn of the loop of `serialize_dir`. */
  method SerializeEntry(name: Name, e: Entry, before: seq<byte>) returns (out: seq<byte>)
    ensures out == before + EncodeEntry(name, e)
    decreases e, 1
  {
    var stored := StoredName(name);
    match e {
      case File(data) =>
        out := before + [0] + [|stored|] + stored + Le32(|data| % 0x1_0000_0000) + data;
      case Dir(_) =>
        out := SerializeDir(e, before + [1] + [|stored|] + stored);
    }
  }

  /** `deserialize_dir`: reads the entry count, then that many entries into a map. */
  method DeserializeDir(data: seq<byte>, start: nat) returns (r: Option<Directory>, pos: nat)
    requires start <= |data|
    ensures start <= pos <= |data|
    ensures r.Some? ==> ParseDir(data[start..]) == Some((r.value, data[pos..]))
    ensures r.None? ==> ParseDir(data[start..]) == None
    decreases |data| - start, 1
  {
    pos := start;
    if pos + 2 > |data| { return None, pos; }
    var count := FromLe16(data[pos], data[pos + 1]);
    pos := pos + 2;
    var dir: Directory := map[];
    assert data[start..][2..] == data[pos..];
    for i := 0 to count
      invariant start + 2 <= pos <= |data|
      invariant ParseEntries(data[pos..], count - i, dir) == ParseDir(data[start..])
    {
      var entry;
      entry, pos := DeserializeEntry(data, pos);
      if entry.None? { return None, pos; }
      dir := dir[entry.value.0 := entry.value.1];
    }
    r := Some(dir);
  }

  /** One turn of the loop of `deserialize_dir`: the entry to insert, unless a check fails. */
  method DeserializeEntry(data: seq<byte>, start: nat) returns (r: Option<(Name, Entry)>, pos: nat)
    requires start <= |data|
    ensures start <= pos <= |data|
    ensures r.Some? ==> ParseEntry(data[start..]) == Some((r.value.0, r.value.1, data[pos..]))
    ensures r.None? ==> ParseEntry(data[start..]) == None
    decreases |data| - start, 0
  {
    hide IsUtf8, ParseContents, ParseDir;
    pos := start;
    if pos + 2 > |data| { return None, pos; }
    var kind := data[pos];
    var length := data[pos + 1];
    pos := pos + 2;
    if pos + length > |data| { return None, pos; }
    assert data[start..][2..2 + length] == data[pos..pos + length];
    assert data[start..][2 + length..] == data[pos + length..];
    if !IsUtf8(data[pos..pos + length]) { return None, pos; }
    var name: Name := data[pos..pos + length];
    pos := pos + length;
    match kind {
      case 0 =>
        var contents;
        contents, pos := DeserializeContents(data, pos);
        r := if contents.None? then None else Some((name, File(contents.value)));
      case 1 =>
        var children;
        children, pos := DeserializeDir(data, pos);
        r := if children.None? then None else Some((name, Dir(children.value)));
      case _ =>
        r := None;
    }
  }

  method DeserializeContents(data: seq<byte>, start: nat) returns (r: Option<seq<byte>>, pos: nat)
    requires start <= |data|
    ensures start <= pos <= |data|
    ensures r.Some? ==> ParseContents(data[start..]) == Some((r.value, data[pos..]))
    ensures r.None? ==> ParseContents(data[start..]) == None
  {
    pos := start;
    if pos + 4 > |data| { return None, pos; }
    var length := FromLe32(data[pos], data[pos + 1], data[pos + 2], data[pos + 3]);
    pos := pos + 4;
    if pos + length > |data| { return None, pos; }
    r := Some(data[pos..pos + length]);
    pos := pos + length;
    assert data[start..][4..4 + length] == r.value && data[start..][4 + length..] == data[pos..];
  }
}
