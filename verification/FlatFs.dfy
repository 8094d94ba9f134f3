/** The reference file system: one flat map from paths to files and directories. Every operation
    of the tree is specified here, without trees. */
module FlatFs {
  import opened Wrappers
  import opened Bytes
  import opened Names

  type Path = seq<Name>
  datatype Node = FileNode(data: seq<byte>) | DirNode
  type Flat = imap<Path, Node>

  datatype RemoveResult = Removed | NotFound | DirNotEmpty

  ghost predicate IsDirAt(v: Flat, p: Path) {
    p in v && v[p] == DirNode
  }

  /** Every proper prefix of a live path is a directory; the root is always there. */
  ghost predicate PrefixClosed(v: Flat) {
    IsDirAt(v, []) && forall p: Path, k: nat :: p in v && k < |p| ==> IsDirAt(v, p[..k])
  }

  /** A directory is occupied if some key extends it by one name. */
  ghost predicate Occupied(v: Flat, p: Path) {
    exists n: Name :: p + [n] in v
  }

  ghost function Erase(v: Flat, p: Path): Flat {
    imap q: Path | q in v && q != p :: v[q]
  }

  ghost function FlatWrite(v: Flat, dir: Path, name: Name, data: seq<byte>): (Flat, bool) {
    if IsDirAt(v, dir) && !IsDirAt(v, dir + [name]) then (v[dir + [name] := FileNode(data)], true)
    else (v, false)
  }

  ghost function FlatCreate(v: Flat, dir: Path, name: Name): (Flat, bool) {
    if IsDirAt(v, dir) && dir + [name] !in v then (v[dir + [name] := FileNode([])], true)
    else (v, false)
  }

  ghost function FlatMkdir(v: Flat, dir: Path, name: Name): (Flat, bool) {
    if IsDirAt(v, dir) && dir + [name] !in v then (v[dir + [name] := DirNode], true)
    else (v, false)
  }

  ghost function FlatRemove(v: Flat, dir: Path, name: Name): (Flat, RemoveResult) {
    if !IsDirAt(v, dir) || dir + [name] !in v then (v, NotFound)
    else if Occupied(v, dir + [name]) then (v, DirNotEmpty)
    else (Erase(v, dir + [name]), Removed)
  }

  ghost function FlatRead(v: Flat, dir: Path, name: Name): Option<seq<byte>> {
    if IsDirAt(v, dir) && dir + [name] in v && v[dir + [name]].FileNode? then Some(v[dir + [name]].data)
    else None
  }

  // ---------- the same operations by what changes ----------

  /** Nothing but `key` differs, and there `v'` has `n`, or nothing. */
  ghost predicate OnlyAt(v: Flat, v': Flat, key: Path, n: Option<Node>) {
    && (key in v' <==> n.Some?) && (n.Some? && key in v' ==> v'[key] == n.value)
    && forall p: Path :: p != key ==> (p in v' <==> p in v) && (p in v && p in v' ==> v'[p] == v[p])
  }

  /** A file is written if its directory exists and no directory has its name, and then with exactly
      these contents; otherwise nothing happens. */
  ghost predicate Writes(v: Flat, dir: Path, name: Name, data: seq<byte>, ok: bool, v': Flat) {
    && (ok <==> IsDirAt(v, dir) && !IsDirAt(v, dir + [name]))
    && if ok then OnlyAt(v, v', dir + [name], Some(FileNode(data))) else v' == v
  }

  /** An empty file, or an empty directory, is made if its directory exists and nothing has its name. */
  ghost predicate Makes(v: Flat, dir: Path, name: Name, n: Node, ok: bool, v': Flat) {
    && (ok <==> IsDirAt(v, dir) && dir + [name] !in v)
    && if ok then OnlyAt(v, v', dir + [name], Some(n)) else v' == v
  }

  /** What is there is removed, unless something is below it. */
  ghost predicate Removes(v: Flat, dir: Path, name: Name, r: RemoveResult, v': Flat) {
    && (r == NotFound <==> !(IsDirAt(v, dir) && dir + [name] in v))
    && (r == DirNotEmpty <==> IsDirAt(v, dir) && dir + [name] in v && exists n: Name :: dir + [name] + [n] in v)
    && if r == Removed then OnlyAt(v, v', dir + [name], None) else v' == v
  }

  /** The contents are those of the file under this name, if there is one. */
  ghost predicate Reads(v: Flat, dir: Path, name: Name, r: Option<seq<byte>>) {
    forall data: seq<byte> ::
      r == Some(data) <==> IsDirAt(v, dir) && dir + [name] in v && v[dir + [name]] == FileNode(data)
  }

  lemma FlatWriteWrites(v: Flat, dir: Path, name: Name, data: seq<byte>)
    ensures var (v', ok) := FlatWrite(v, dir, name, data); Writes(v, dir, name, data, ok, v')
  {
  }

  lemma FlatCreateMakes(v: Flat, dir: Path, name: Name)
    ensures var (v', ok) := FlatCreate(v, dir, name); Makes(v, dir, name, FileNode([]), ok, v')
  {
  }

  lemma FlatMkdirMakes(v: Flat, dir: Path, name: Name)
    ensures var (v', ok) := FlatMkdir(v, dir, name); Makes(v, dir, name, DirNode, ok, v')
  {
  }

  lemma FlatRemoveRemoves(v: Flat, dir: Path, name: Name)
    ensures var (v', r) := FlatRemove(v, dir, name); Removes(v, dir, name, r, v')
  {
  }

  lemma FlatReadReads(v: Flat, dir: Path, name: Name)
    ensures Reads(v, dir, name, FlatRead(v, dir, name))
  {
  }

  datatype Change =
    | Write(path: Path, name: Name, data: seq<byte>)
    | Create(path: Path, name: Name)
    | Mkdir(path: Path, name: Name)
    | Remove(path: Path, name: Name)

  datatype Reply = Done(ok: bool) | RemoveReply(result: RemoveResult)

  ghost function FlatStep(v: Flat, c: Change): (Flat, Reply) {
    match c
    case Write(path, name, data) => var (v', ok) := FlatWrite(v, path, name, data); (v', Done(ok))
    case Create(path, name) => var (v', ok) := FlatCreate(v, path, name); (v', Done(ok))
    case Mkdir(path, name) => var (v', ok) := FlatMkdir(v, path, name); (v', Done(ok))
    case Remove(path, name) => var (v', result) := FlatRemove(v, path, name); (v', RemoveReply(result))
  }

  /** Each kind of change does what it is named for. */
  ghost predicate Does(v: Flat, c: Change, reply: Reply, v': Flat) {
    match c
    case Write(path, name, data) => reply.Done? && Writes(v, path, name, data, reply.ok, v')
    case Create(path, name) => reply.Done? && Makes(v, path, name, FileNode([]), reply.ok, v')
    case Mkdir(path, name) => reply.Done? && Makes(v, path, name, DirNode, reply.ok, v')
    case Remove(path, name) => reply.RemoveReply? && Removes(v, path, name, reply.result, v')
  }

  lemma FlatStepDoes(v: Flat, c: Change)
    ensures var (v', reply) := FlatStep(v, c); Does(v, c, reply, v')
  {
    hide OnlyAt, IsDirAt, FlatWrite, FlatCreate, FlatMkdir, FlatRemove, Writes, Makes, Removes;
    match c {
      case Write(path, name, data) => FlatWriteWrites(v, path, name, data);
      case Create(path, name) => FlatCreateMakes(v, path, name);
      case Mkdir(path, name) => FlatMkdirMakes(v, path, name);
      case Remove(path, name) => FlatRemoveRemoves(v, path, name);
    }
  }

  ghost function FlatRun(v: Flat, commands: seq<Change>): (Flat, seq<Reply>) {
    if commands == [] then (v, [])
    else
      var (v', replies) := FlatRun(v, commands[..|commands| - 1]);
      var (v'', reply) := FlatStep(v', commands[|commands| - 1]);
      (v'', replies + [reply])
  }

  /** A run is one change after the other, in order. */
  lemma {:induction false} FlatRunDoes(v: Flat, commands: seq<Change>) returns (states: seq<Flat>)
    ensures |states| == |commands| + 1 && states[0] == v && states[|commands|] == FlatRun(v, commands).0
    ensures |FlatRun(v, commands).1| == |commands|
    ensures forall k :: 0 <= k < |commands| ==> Does(states[k], commands[k], FlatRun(v, commands).1[k], states[k + 1])
  {
    hide Does, FlatStep;
    if commands == [] {
      states := [v];
    } else {
      var n := |commands| - 1;
      states := FlatRunDoes(v, commands[..n]);
      FlatStepDoes(FlatRun(v, commands[..n]).0, commands[n]);
      states := states + [FlatRun(v, commands).0];
    }
  }

  // ---------- what the flat operations keep ----------

  lemma PutKeepsClosed(v: Flat, dir: Path, name: Name, n: Node)
    requires PrefixClosed(v) && IsDirAt(v, dir)
    requires n == DirNode || !Occupied(v, dir + [name])
    requires dir + [name] in v ==> n.FileNode? && v[dir + [name]].FileNode?
    ensures PrefixClosed(v[dir + [name] := n])
  {
    var key := dir + [name];
    var v' := v[key := n];
    forall p: Path, k: nat | p in v' && k < |p| ensures IsDirAt(v', p[..k]) {
      if p == key {
        assert p[..k] == dir[..k] && (k < |dir| || dir[..k] == dir);
      } else {
        assert IsDirAt(v, p[..k]);
      }
    }
  }

  /** A file has nothing below it. */
  lemma FilesAreLeaves(v: Flat, p: Path)
    requires PrefixClosed(v) && p in v && v[p].FileNode?
    ensures !Occupied(v, p)
  {
    forall n: Name ensures p + [n] !in v {
      assert (p + [n])[..|p|] == p;
    }
  }

  lemma PrefixIsOccupied(v: Flat, q: Path, k: nat)
    requires PrefixClosed(v) && q in v && k < |q|
    ensures Occupied(v, q[..k])
  {
    assert q[..k] + [q[k]] == q[..k + 1];
    assert q[..k + 1] in v by {
      if k + 1 < |q| { assert IsDirAt(v, q[..k + 1]); } else { assert q[..k + 1] == q; }
    }
  }

  lemma EraseKeepsClosed(v: Flat, p: Path)
    requires PrefixClosed(v) && p != [] && !Occupied(v, p)
    ensures PrefixClosed(Erase(v, p))
  {
    var v' := Erase(v, p);
    forall q: Path, k: nat | q in v' && k < |q| ensures IsDirAt(v', q[..k]) {
      assert IsDirAt(v, q[..k]);
      PrefixIsOccupied(v, q, k);
    }
  }

  /** What no key below `p` can survive: absent paths have nothing below them. */
  lemma AbsentIsUnoccupied(v: Flat, p: Path)
    requires PrefixClosed(v) && p !in v
    ensures !Occupied(v, p)
  {
    forall n: Name ensures p + [n] !in v {
      assert (p + [n])[..|p|] == p;
    }
  }

  lemma FlatOpsKeepClosed(v: Flat, dir: Path, name: Name, data: seq<byte>)
    requires PrefixClosed(v)
    ensures PrefixClosed(FlatWrite(v, dir, name, data).0)
    ensures PrefixClosed(FlatCreate(v, dir, name).0)
    ensures PrefixClosed(FlatMkdir(v, dir, name).0)
    ensures PrefixClosed(FlatRemove(v, dir, name).0)
  {
    var key := dir + [name];
    if IsDirAt(v, dir) {
      if key !in v {
        AbsentIsUnoccupied(v, key);
        PutKeepsClosed(v, dir, name, DirNode);
        PutKeepsClosed(v, dir, name, FileNode([]));
        PutKeepsClosed(v, dir, name, FileNode(data));
      } else if v[key].FileNode? {
        FilesAreLeaves(v, key);
        PutKeepsClosed(v, dir, name, FileNode(data));
      }
      if !Occupied(v, key) {
        EraseKeepsClosed(v, key);
      }
    }
  }
}
