/** The RAM file system as an object edited in place by path, and its refinement of the flat
    map of paths. */
module RamFs {
  import opened Wrappers
  import opened Bytes
  import opened Names
  import opened RamFsCodec
  import opened RamFsCodecLaws
  import opened FlatFs

  // ---------- the tree seen as a flat map ----------

  ghost function Shape(e: Entry): Node {
    match e
    case File(data) => FileNode(data)
    case Dir(_) => DirNode
  }

  ghost function NodeAt(d: Directory, p: Path): Option<Node>
    decreases |p|
  {
    if p == [] then Some(DirNode)
    else if p[0] !in d then None
    else if |p| == 1 then Some(Shape(d[p[0]]))
    else match d[p[0]]
      case File(_) => None
      case Dir(children) => NodeAt(children, p[1..])
  }

  ghost function View(d: Directory): Flat {
    imap p: Path | NodeAt(d, p).Some? :: NodeAt(d, p).value
  }

  function Lookup(d: Directory, path: Path): Option<Directory>
    decreases |path|
  {
    if path == [] then Some(d)
    else if path[0] in d && d[path[0]].Dir? then Lookup(d[path[0]].children, path[1..])
    else None
  }

  /** The tree with the directory at `path` replaced by `d'`: what a change through the
      reference returned by `get_dir_mut` does to the root. */
  function Graft(d: Directory, path: Path, d': Directory): Directory
    requires Lookup(d, path).Some?
    decreases |path|
  {
    if path == [] then d'
    else d[path[0] := Dir(Graft(d[path[0]].children, path[1..], d'))]
  }

  lemma {:induction false} NodeAtExtends(d: Directory, path: Path, q: Path)
    requires Lookup(d, path).Some?
    ensures NodeAt(d, path + q) == NodeAt(Lookup(d, path).value, q)
    decreases |path|
  {
    if path == [] {
      assert path + q == q;
    } else {
      NodeAtExtends(d[path[0]].children, path[1..], q);
      assert (path + q)[1..] == path[1..] + q;
      if path[1..] + q == [] {
        assert Lookup(d[path[0]].children, path[1..]) == Some(d[path[0]].children);
      }
    }
  }

  lemma {:induction false} LookupIsDir(d: Directory, path: Path)
    ensures Lookup(d, path).Some? <==> NodeAt(d, path) == Some(DirNode)
    decreases |path|
  {
    if path != [] && path[0] in d && d[path[0]].Dir? {
      LookupIsDir(d[path[0]].children, path[1..]);
    }
  }

  ghost predicate StartsWith(p: Path, q: Path) {
    |q| <= |p| && p[..|q|] == q
  }

  lemma {:induction false} NodeAtGraft(d: Directory, path: Path, d': Directory, p: Path)
    requires Lookup(d, path).Some?
    ensures NodeAt(Graft(d, path, d'), p)
         == if StartsWith(p, path) then NodeAt(d', p[|path|..]) else NodeAt(d, p)
    decreases |path|
  {
    if path != [] && p != [] && p[0] == path[0] {
      var sub := d[path[0]].children;
      NodeAtGraft(sub, path[1..], d', p[1..]);
      assert StartsWith(p, path) <==> StartsWith(p[1..], path[1..]);
      if StartsWith(p, path) {
        assert p[1..][|path[1..]|..] == p[|path|..];
      }
    }
  }

  predicate IsLeaf(e: Entry) {
    e.File? || e.children == map[]
  }

  lemma NodeAtInsert(d: Directory, name: Name, e: Entry, q: Path)
    requires IsLeaf(e) && (name in d ==> IsLeaf(d[name]))
    ensures NodeAt(d[name := e], q) == if q == [name] then Some(Shape(e)) else NodeAt(d, q)
  {
    if q != [] && q[0] == name {
      assert |q| == 1 <==> q == [name];
    }
  }

  lemma NodeAtRemove(d: Directory, name: Name, q: Path)
    requires name in d && IsLeaf(d[name])
    ensures NodeAt(d - {name}, q) == if q == [name] then None else NodeAt(d, q)
  {
    if q != [] && q[0] == name {
      assert |q| == 1 <==> q == [name];
    }
  }

  lemma ViewPut(after: Directory, before: Directory, key: Path, n: Node)
    requires forall p: Path :: NodeAt(after, p) == if p == key then Some(n) else NodeAt(before, p)
    ensures View(after) == View(before)[key := n]
  {
    var a, b := View(after), View(before)[key := n];
    forall p: Path ensures p in a <==> p in b {
      assert p in View(before) <==> NodeAt(before, p).Some?;
      assert p in a <==> NodeAt(after, p).Some?;
    }
    forall p: Path | p in a ensures a[p] == b[p] {
      assert NodeAt(after, p) == Some(a[p]);
    }
  }

  /** Inserting a leaf into the directory at `path` sets exactly one key of the flat map. */
  lemma InsertIsOneKey(root: Directory, path: Path, name: Name, e: Entry)
    requires Lookup(root, path).Some? && IsLeaf(e)
    requires var d := Lookup(root, path).value; name in d ==> IsLeaf(d[name])
    ensures var d := Lookup(root, path).value;
            View(Graft(root, path, d[name := e])) == View(root)[path + [name] := Shape(e)]
  {
    var d := Lookup(root, path).value;
    var after, key := Graft(root, path, d[name := e]), path + [name];
    forall p: Path
      ensures NodeAt(after, p) == if p == key then Some(Shape(e)) else NodeAt(root, p)
    {
      NodeAtGraft(root, path, d[name := e], p);
      if StartsWith(p, path) {
        SplitAt(p, path);
        NodeAtExtends(root, path, p[|path|..]);
        NodeAtInsert(d, name, e, p[|path|..]);
      }
    }
    ViewPut(after, root, key, Shape(e));
  }

  lemma RemoveIsOneKey(root: Directory, path: Path, name: Name)
    requires Lookup(root, path).Some?
    requires var d := Lookup(root, path).value; name in d && IsLeaf(d[name])
    ensures var d := Lookup(root, path).value;
            View(Graft(root, path, d - {name})) == Erase(View(root), path + [name])
  {
    var d := Lookup(root, path).value;
    forall p: Path
      ensures NodeAt(Graft(root, path, d - {name}), p)
           == if p == path + [name] then None else NodeAt(root, p)
    {
      NodeAtGraft(root, path, d - {name}, p);
      if StartsWith(p, path) {
        SplitAt(p, path);
        NodeAtExtends(root, path, p[|path|..]);
        NodeAtRemove(d, name, p[|path|..]);
      }
    }
    assert View(Graft(root, path, d - {name})) == Erase(View(root), path + [name]);
  }

  lemma SplitAt(p: Path, path: Path)
    requires StartsWith(p, path)
    ensures p == path + p[|path|..]
    ensures forall n: Name :: p == path + [n] <==> p[|path|..] == [n]
  {
  }

  /** What the flat map says about a name inside an existing directory. */
  lemma ViewInside(root: Directory, path: Path, name: Name)
    requires Lookup(root, path).Some?
    ensures IsDirAt(View(root), path)
    ensures var d := Lookup(root, path).value; var key := path + [name];
            && (key in View(root) <==> name in d)
            && (name in d ==> View(root)[key] == Shape(d[name]))
            && (name in d ==> (IsLeaf(d[name]) <==> !Occupied(View(root), key)))
  {
    var d := Lookup(root, path).value;
    var key := path + [name];
    LookupIsDir(root, path);
    NodeAtExtends(root, path, [name]);
    if name in d {
      forall n: Name ensures NodeAt(root, key + [n]) == NodeAt(d, [name, n]) {
        NodeAtExtends(root, path, [name, n]);
        assert key + [n] == path + [name, n];
      }
      if d[name].Dir? && d[name].children != map[] {
        var n: Name :| n in d[name].children;
        assert [name, n][1..] == [n];
        assert NodeAt(root, key + [n]) == NodeAt(d, [name, n]) == Some(Shape(d[name].children[n]));
        assert key + [n] in View(root);
        assert Occupied(View(root), key);
      } else {
        forall n: Name ensures key + [n] !in View(root) {
          assert NodeAt(root, key + [n]) == NodeAt(d, [name, n]) == None;
        }
      }
    }
  }

  lemma ViewOutside(root: Directory, path: Path)
    requires Lookup(root, path).None?
    ensures !IsDirAt(View(root), path)
  {
    LookupIsDir(root, path);
  }

  lemma {:induction false} ViewIsPrefixClosed(root: Directory)
    ensures PrefixClosed(View(root))
  {
    forall p: Path, k: nat | p in View(root) && k < |p| ensures IsDirAt(View(root), p[..k]) {
      PrefixIsDir(root, p, k);
    }
  }

  lemma {:induction false} PrefixIsDir(d: Directory, p: Path, k: nat)
    requires k < |p| && NodeAt(d, p).Some?
    ensures NodeAt(d, p[..k]) == Some(DirNode)
    decreases k
  {
    if k > 0 {
      PrefixIsDir(d[p[0]].children, p[1..], k - 1);
      assert p[..k][1..] == p[1..][..k - 1];
    }
  }

  /** The flat map forgets nothing: trees with equal views are equal. */
  lemma {:induction false} ViewIsInjective(a: Entry, b: Entry)
    requires a.Dir? && b.Dir? && View(a.children) == View(b.children)
    ensures a == b
    decreases a
  {
    var c, d := a.children, b.children;
    assert forall p: Path :: NodeAt(c, p) == NodeAt(d, p) by {
      forall p: Path ensures NodeAt(c, p) == NodeAt(d, p) {
        assert p in View(c) <==> p in View(d);
        assert p in View(c) ==> View(c)[p] == View(d)[p];
      }
    }
    forall n: Name ensures n in c <==> n in d {
      assert NodeAt(c, [n]) == NodeAt(d, [n]);
    }
    forall n: Name | n in c ensures c[n] == d[n] {
      assert NodeAt(c, [n]) == NodeAt(d, [n]);
      if c[n].Dir? {
        forall q: Path ensures NodeAt(c[n].children, q) == NodeAt(d[n].children, q) {
          if q != [] {
            assert ([n] + q)[1..] == q;
            assert NodeAt(c, [n] + q) == NodeAt(d, [n] + q);
          }
        }
        assert View(c[n].children) == View(d[n].children);
        ViewIsInjective(c[n], d[n]);
      }
    }
    assert c.Keys == d.Keys;
  }

  datatype DirEntry = DirEntry(name: Name, isDir: bool, size: nat)

  function Summary(name: Name, e: Entry): DirEntry {
    match e
    case File(data) => DirEntry(name, false, |data|)
    case Dir(_) => DirEntry(name, true, 0)
  }

  /** `RamFs`: the state is one tree, edited in place. */
  class RamFs {
    var root: Directory

    constructor ()
      ensures root == map[]
    {
      root := map[];
    }

    method GetDir(path: Path) returns (r: Option<Directory>)
      ensures r == Lookup(root, path)
    {
      var current := root;
      for i := 0 to |path|
        invariant Lookup(root, path) == Lookup(current, path[i..])
      {
        assert path[i..][1..] == path[i + 1..];
        if path[i] in current && current[path[i]].Dir? {
          current := current[path[i]].children;
        } else {
          return None;
        }
      }
      r := Some(current);
    }

    /** `fs.replace(other)` */
    method Replace(other: Directory)
      modifies this
      ensures root == other
    {
      root := other;
    }

    method Save() returns (image: seq<byte>)
      ensures image == Serialize(root)
    {
      image := SerializeDir(Dir(root), []);
    }

    static method Load(data: seq<byte>) returns (r: Option<Directory>)
      ensures r == LoadFrom(data)
    {
      var pos;
      assert data[0..] == data;
      r, pos := DeserializeDir(data, 0);
    }

    method Write(path: Path, name: Name, data: seq<byte>) returns (ok: bool)
      modifies this
      ensures (View(root), ok) == FlatWrite(old(View(root)), path, name, data)
      ensures !ok ==> root == old(root)
      ensures Writes(old(View(root)), path, name, data, ok, View(root))
    {
      hide Writes, Makes, Removes;
      FlatWriteWrites(View(root), path, name, data);
      var dir := GetDir(path);
      if dir.None? {
        ViewOutside(root, path);
        return false;
      }
      var d := dir.value;
      ViewInside(root, path, name);
      if name in d && d[name].Dir? {
        return false;
      }
      InsertIsOneKey(root, path, name, File(data));
      root := Graft(root, path, d[name := File(data)]);
      ok := true;
    }

    method Create(path: Path, name: Name) returns (ok: bool)
      modifies this
      ensures (View(root), ok) == FlatCreate(old(View(root)), path, name)
      ensures !ok ==> root == old(root)
      ensures Makes(old(View(root)), path, name, FileNode([]), ok, View(root))
    {
      hide Writes, Makes, Removes;
      FlatCreateMakes(View(root), path, name);
      var dir := GetDir(path);
      if dir.None? {
        ViewOutside(root, path);
        return false;
      }
      var d := dir.value;
      ViewInside(root, path, name);
      if name in d {
        return false;
      }
      InsertIsOneKey(root, path, name, File([]));
      root := Graft(root, path, d[name := File([])]);
      ok := true;
    }

    method Mkdir(path: Path, name: Name) returns (ok: bool)
      modifies this
      ensures (View(root), ok) == FlatMkdir(old(View(root)), path, name)
      ensures !ok ==> root == old(root)
      ensures Makes(old(View(root)), path, name, DirNode, ok, View(root))
    {
      hide Writes, Makes, Removes;
      FlatMkdirMakes(View(root), path, name);
      var dir := GetDir(path);
      if dir.None? {
        ViewOutside(root, path);
        return false;
      }
      var d := dir.value;
      ViewInside(root, path, name);
      if name in d {
        return false;
      }
      InsertIsOneKey(root, path, name, Dir(map[]));
      root := Graft(root, path, d[name := Dir(map[])]);
      ok := true;
    }

    method Remove(path: Path, name: Name) returns (r: RemoveResult)
      modifies this
      ensures (View(root), r) == FlatRemove(old(View(root)), path, name)
      ensures r != Removed ==> root == old(root)
      ensures Removes(old(View(root)), path, name, r, View(root))
    {
      hide Writes, Makes, Removes;
      FlatRemoveRemoves(View(root), path, name);
      var dir := GetDir(path);
      if dir.None? {
        ViewOutside(root, path);
        return NotFound;
      }
      var d := dir.value;
      ViewInside(root, path, name);
      if name !in d {
        return NotFound;
      }
      if d[name].Dir? && d[name].children != map[] {
        return DirNotEmpty;
      }
      RemoveIsOneKey(root, path, name);
      root := Graft(root, path, d - {name});
      r := Removed;
    }

    method Read(path: Path, name: Name) returns (r: Option<seq<byte>>)
      ensures r == FlatRead(View(root), path, name)
      ensures Reads(View(root), path, name, r)
    {
      FlatReadReads(View(root), path, name);
      hide Reads;
      var dir := GetDir(path);
      if dir.None? {
        ViewOutside(root, path);
        return None;
      }
      ViewInside(root, path, name);
      if name in dir.value && dir.value[name].File? {
        return Some(dir.value[name].data);
      }
      r := None;
    }

    method Exists(path: Path, name: Name) returns (found: bool)
      ensures found <==> IsDirAt(View(root), path) && path + [name] in View(root)
    {
      var dir := GetDir(path);
      if dir.None? {
        ViewOutside(root, path);
        return false;
      }
      ViewInside(root, path, name);
      found := name in dir.value;
    }

    method IsDir(path: Path, name: Name) returns (found: bool)
      ensures found <==> IsDirAt(View(root), path) && IsDirAt(View(root), path + [name])
    {
      var dir := GetDir(path);
      if dir.None? {
        ViewOutside(root, path);
        return false;
      }
      ViewInside(root, path, name);
      found := name in dir.value && dir.value[name].Dir?;
    }

    /** `names`: the ascending listing of the names directly below `path`; nothing for a path
        that is no directory. */
    method Names(path: Path) returns (names: seq<Name>)
      ensures Ascending(names)
      ensures forall n: Name :: n in names <==> IsDirAt(View(root), path) && path + [n] in View(root)
    {
      var dir := GetDir(path);
      if dir.None? {
        ViewOutside(root, path);
        return [];
      }
      forall n: Name {
        ViewInside(root, path, n);
      }
      names := KeysInOrder(dir.value.Keys);
      SortedNamesAscend(dir.value.Keys);
    }

    /** `list`: the same listing with the kind and size of every entry. */
    method List(path: Path) returns (r: Option<seq<DirEntry>>)
      ensures r.None? <==> !IsDirAt(View(root), path)
      ensures r.Some? ==> IsFullListing(r.value, View(root), path)
    {
      var dir := GetDir(path);
      LookupIsDir(root, path);
      if dir.None? {
        return None;
      }
      var d := dir.value;
      var names := KeysInOrder(d.Keys);
      var entries: seq<DirEntry> := [];
      for i := 0 to |names|
        invariant |entries| == i
        invariant forall k :: 0 <= k < i ==> entries[k] == Summary(names[k], d[names[k]])
      {
        entries := entries + [Summary(names[i], d[names[i]])];
      }
      SummariesAreFull(root, path, entries);
      r := Some(entries);
    }

    /** Any sequence of changes, whatever their outcomes, behaves as on the flat map. */
    method Run(commands: seq<Change>) returns (replies: seq<Reply>)
      modifies this
      ensures (View(root), replies) == FlatRun(old(View(root)), commands)
      ensures PrefixClosed(View(root))
    {
      replies := [];
      for i := 0 to |commands|
        invariant (View(root), replies) == FlatRun(old(View(root)), commands[..i])
      {
        assert commands[..i + 1][..i] == commands[..i];
        match commands[i] {
          case Write(path, name, data) =>
            var ok := Write(path, name, data);
            replies := replies + [Done(ok)];
          case Create(path, name) =>
            var ok := Create(path, name);
            replies := replies + [Done(ok)];
          case Mkdir(path, name) =>
            var ok := Mkdir(path, name);
            replies := replies + [Done(ok)];
          case Remove(path, name) =>
            var result := Remove(path, name);
            replies := replies + [RemoveReply(result)];
        }
      }
      assert commands[..|commands|] == commands;
      ViewIsPrefixClosed(root);
    }
  }

  /** A listing is ascending, names exactly what lies directly below `path`, and gives every
      entry its kind and size. */
  ghost predicate IsFullListing(entries: seq<DirEntry>, v: Flat, path: Path) {
    && (forall i, j :: 0 <= i < j < |entries| ==> Less(entries[i].name, entries[j].name))
    && (forall i :: 0 <= i < |entries| ==> Describes(entries[i], v, path))
    && (forall n: Name :: path + [n] in v ==> exists i :: 0 <= i < |entries| && entries[i].name == n)
  }

  lemma SummariesAreFull(root: Directory, path: Path, entries: seq<DirEntry>)
    requires Lookup(root, path).Some?
    requires var d := Lookup(root, path).value; var names := SortedNames(d.Keys);
             |entries| == |names| && forall k :: 0 <= k < |names| ==> entries[k] == Summary(names[k], d[names[k]])
    ensures IsFullListing(entries, View(root), path)
  {
    var d := Lookup(root, path).value;
    var names := SortedNames(d.Keys);
    forall i, j | 0 <= i < j < |entries| ensures Less(entries[i].name, entries[j].name) {
      SortedNamesAscend(d.Keys);
      assert entries[i].name == names[i] && entries[j].name == names[j];
    }
    forall i | 0 <= i < |entries| ensures Describes(entries[i], View(root), path) {
      SummaryDescribes(root, path, names[i]);
    }
    forall n: Name | path + [n] in View(root) ensures exists i :: 0 <= i < |entries| && entries[i].name == n {
      ViewInside(root, path, n);
      assert n in names;
      var i :| 0 <= i < |names| && names[i] == n;
      assert entries[i].name == n;
    }
  }

  lemma SummaryDescribes(root: Directory, path: Path, name: Name)
    requires Lookup(root, path).Some? && name in Lookup(root, path).value
    ensures Describes(Summary(name, Lookup(root, path).value[name]), View(root), path)
  {
    ViewInside(root, path, name);
  }

  ghost predicate Describes(e: DirEntry, v: Flat, path: Path) {
    var key := path + [e.name];
    key in v && match v[key]
                case FileNode(data) => !e.isDir && e.size == |data|
                case DirNode => e.isDir && e.size == 0
  }
}
