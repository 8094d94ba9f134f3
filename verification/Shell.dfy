/** The shell's file commands and its working directory. Command words are taken as already split;
    names are bytes of UTF-8. */
module Shell {
  import opened Wrappers
  import opened Bytes
  import opened Names
  import opened FlatFs
  import opened RamFs
  import opened Ata
  import opened DiskImage
  import RamFsCodec

  datatype MoveResult = SameName | NoSource | NotWritable | Moved

  /** A name containing a slash or two dots is nothing special to the file system, only to `cd`. */
  function Root(): seq<byte> { [0x2F] }
  function Up(): seq<byte> { [0x2E, 0x2E] }
  function Here(): seq<byte> { [0x2E] }

  /** `cd`: without an argument, to the root, up, nowhere, or into a directory that exists. */
  ghost function ChangedDir(v: Flat, cwd: Path, target: Option<Name>): Path {
    match target
    case None => []
    case Some(t) =>
      if t == Root() then []
      else if t == Up() then if cwd == [] then [] else cwd[..|cwd| - 1]
      else if t == Here() then cwd
      else if IsDirAt(v, cwd) && IsDirAt(v, cwd + [t]) then cwd + [t]
      else cwd
  }

  /** `mv` on the flat map. */
  ghost function FlatMove(v: Flat, cwd: Path, src: Name, dst: Name): (Flat, MoveResult) {
    if src == dst then (v, SameName)
    else match FlatRead(v, cwd, src)
      case None => (v, NoSource)
      case Some(data) =>
        var (v', ok) := FlatWrite(v, cwd, dst, data);
        if ok then (Erase(v', cwd + [src]), Moved) else (v, NotWritable)
  }

  /** What `>>` leaves in the file: the output on a line of its own behind what was there. */
  function Appended(existing: seq<byte>, output: seq<byte>): (r: seq<byte>)
    ensures |existing| + |output| <= |r| <= |existing| + 1 + |output|
    ensures existing <= r && r[|r| - |output|..] == output
    ensures existing != [] ==> r[|r| - |output| - 1] == 0x0A
    ensures |r| == |existing| + |output| <==> existing == [] || existing[|existing| - 1] == 0x0A
  {
    existing + (if existing != [] && existing[|existing| - 1] != 0x0A then [0x0A] else []) + output
  }

  datatype Command =
    | Cd(target: Option<Name>)
    | Touch(name: Name)
    | WriteText(name: Name, text: seq<byte>)
    | Rm(name: Name)
    | MakeDir(name: Name)
    | Cp(src: Name, dst: Name)
    | Mv(src: Name, dst: Name)
    | WriteOutput(name: Name, output: seq<byte>)
    | AppendOutput(name: Name, output: seq<byte>)
    | Load

  /** What a command does to the flat map and the working directory; `load` is specified with the disk. */
  ghost function ShellStep(v: Flat, cwd: Path, c: Command): (Flat, Path)
    requires !c.Load?
  {
    match c
    case Cd(target) => (v, ChangedDir(v, cwd, target))
    case Touch(name) => (FlatCreate(v, cwd, name).0, cwd)
    case WriteText(name, text) => (FlatWrite(v, cwd, name, text).0, cwd)
    case Rm(name) => (FlatRemove(v, cwd, name).0, cwd)
    case MakeDir(name) => (FlatMkdir(v, cwd, name).0, cwd)
    case Cp(src, dst) =>
      var data := FlatRead(v, cwd, src);
      (if data.Some? then FlatWrite(v, cwd, dst, data.value).0 else v, cwd)
    case Mv(src, dst) => (FlatMove(v, cwd, src, dst).0, cwd)
    case WriteOutput(name, output) => (FlatWrite(v, cwd, name, output).0, cwd)
    case AppendOutput(name, output) =>
      var data := FlatRead(v, cwd, name);
      (FlatWrite(v, cwd, name, Appended(if data.Some? then data.value else [], output)).0, cwd)
  }

  /** No command leaves its own shell in a directory that is not there. */
  lemma {:induction false} StepKeepsDir(v: Flat, cwd: Path, c: Command)
    requires PrefixClosed(v) && IsDirAt(v, cwd) && !c.Load?
    ensures var (v', cwd') := ShellStep(v, cwd, c); PrefixClosed(v') && IsDirAt(v', cwd')
  {
    hide FlatMove, FlatRead;
    match c {
      case Cd(target) => assert cwd != [] ==> IsDirAt(v, cwd[..|cwd| - 1]);
      case Touch(name) => FlatOpsKeepClosed(v, cwd, name, []);
      case WriteText(name, text) => FlatOpsKeepClosed(v, cwd, name, text);
      case Rm(name) => FlatOpsKeepClosed(v, cwd, name, []);
      case MakeDir(name) => FlatOpsKeepClosed(v, cwd, name, []);
      case Cp(src, dst) =>
        if FlatRead(v, cwd, src).Some? { FlatOpsKeepClosed(v, cwd, dst, FlatRead(v, cwd, src).value); }
      case Mv(src, dst) => MoveKeepsDir(v, cwd, src, dst);
      case WriteOutput(name, output) => FlatOpsKeepClosed(v, cwd, name, output);
      case AppendOutput(name, output) =>
        var data := FlatRead(v, cwd, name);
        FlatOpsKeepClosed(v, cwd, name, Appended(if data.Some? then data.value else [], output));
    }
  }

  lemma MoveKeepsDir(v: Flat, cwd: Path, src: Name, dst: Name)
    requires PrefixClosed(v) && IsDirAt(v, cwd)
    ensures var v' := FlatMove(v, cwd, src, dst).0; PrefixClosed(v') && IsDirAt(v', cwd)
  {
    var data := FlatRead(v, cwd, src);
    if src != dst && data.Some? {
      var v' := FlatWrite(v, cwd, dst, data.value).0;
      FlatOpsKeepClosed(v, cwd, dst, data.value);
      FlatOpsKeepClosed(v', cwd, src, []);
      MoveIsWriteAndRemove(v, cwd, src, dst);
    }
  }

  /** Writing the copy leaves the source a file, so that taking it away is a plain removal. */
  lemma MoveIsWriteAndRemove(v: Flat, cwd: Path, src: Name, dst: Name)
    requires PrefixClosed(v) && src != dst && FlatRead(v, cwd, src).Some?
    ensures var (v', ok) := FlatWrite(v, cwd, dst, FlatRead(v, cwd, src).value);
            ok ==> FlatRemove(v', cwd, src) == (Erase(v', cwd + [src]), Removed)
  {
    var v' := FlatWrite(v, cwd, dst, FlatRead(v, cwd, src).value).0;
    assert (cwd + [src])[|cwd|] != (cwd + [dst])[|cwd|];
    FlatOpsKeepClosed(v, cwd, dst, FlatRead(v, cwd, src).value);
    FilesAreLeaves(v', cwd + [src]);
  }

  class Shell {
    const fs: RamFs
    const drive: Drive
    var cwd: Path

    constructor (fs: RamFs, drive: Drive)
      ensures this.fs == fs && this.drive == drive && cwd == []
    {
      this.fs, this.drive, this.cwd := fs, drive, [];
    }

    ghost predicate Valid()
      reads drive
    {
      drive.Valid()
    }

    /** The working directory exists; another shell may have taken it away. */
    ghost predicate HasDir()
      reads this, fs
    {
      IsDirAt(View(fs.root), cwd)
    }

    method CmdCd(target: Option<Name>)
      requires Valid()
      modifies this`cwd
      ensures Valid() && cwd == ChangedDir(View(fs.root), old(cwd), target)
    {
      ViewIsPrefixClosed(fs.root);
      if target.None? || target.value == Root() {
        cwd := [];
      } else if target.value == Up() {
        if cwd != [] { cwd := cwd[..|cwd| - 1]; }
      } else if target.value == Here() {
      } else {
        var exists_ := fs.Exists(cwd, target.value);
        if !exists_ { return; }
        var isDir := fs.IsDir(cwd, target.value);
        if isDir { cwd := cwd + [target.value]; }
      }
    }

    /** Source read, destination written, source removed: only the two names change. */
    method CmdMv(src: Name, dst: Name) returns (r: MoveResult)
      requires Valid()
      modifies fs
      ensures Valid() && (View(fs.root), r) == FlatMove(old(View(fs.root)), cwd, src, dst)
    {
      if src == dst { return SameName; }
      ghost var before := View(fs.root);
      ViewIsPrefixClosed(fs.root);
      var data := fs.Read(cwd, src);
      if data.None? { return NoSource; }
      var ok := fs.Write(cwd, dst, data.value);
      if !ok { return NotWritable; }
      MoveIsWriteAndRemove(before, cwd, src, dst);
      var removed := fs.Remove(cwd, src);
      r := Moved;
    }

    method CmdCp(src: Name, dst: Name) returns (ok: bool)
      requires Valid()
      modifies fs
      ensures Valid()
      ensures match FlatRead(old(View(fs.root)), cwd, src)
              case None => !ok && View(fs.root) == old(View(fs.root))
              case Some(data) => (View(fs.root), ok) == FlatWrite(old(View(fs.root)), cwd, dst, data)
    {
      var data := fs.Read(cwd, src);
      if data.None? { return false; }
      ok := fs.Write(cwd, dst, data.value);
    }

    method AppendTo(name: Name, output: seq<byte>) returns (ok: bool)
      requires Valid()
      modifies fs
      ensures Valid()
      ensures var before := FlatRead(old(View(fs.root)), cwd, name);
              (View(fs.root), ok)
              == FlatWrite(old(View(fs.root)), cwd, name, Appended(if before.Some? then before.value else [], output))
    {
      var read := fs.Read(cwd, name);
      var existing := if read.Some? then read.value else [];
      ghost var was := existing;
      if existing != [] && existing[|existing| - 1] != 0x0A {
        existing := existing + [0x0A];
      }
      assert existing + output == Appended(was, output);
      ok := fs.Write(cwd, name, existing + output);
    }

    /** One command, in an existing working directory or not. `load` answers as the disk and its
        faults decide; if it loads, the tree on the disk is installed and the shell goes to its root. */
    method Execute(c: Command) returns (answer: Option<LoadResult>)
      requires Valid()
      modifies this`cwd, fs, drive
      ensures Valid() && drive.Contents() == old(drive.Contents())
      ensures old(HasDir()) ==> HasDir()
      ensures !c.Load? ==>
        answer == None && (View(fs.root), cwd) == ShellStep(old(View(fs.root)), old(cwd), c)
      ensures c.Load? ==>
        && answer.Some?
        && LoadAnswer(answer.value, old(drive.available), drive.Contents(), drive.faults, old(drive.issued))
        && if answer.value.Loaded? then Some(fs.root) == LoadTree(drive.Contents()) && cwd == []
           else fs.root == old(fs.root) && cwd == old(cwd)
    {
      hide View, FlatWrite, FlatCreate, FlatMkdir, FlatRemove, FlatRead, FlatMove, PrefixClosed, LoadAnswer, LoadTree;
      hide SectorsOf, IsDirAt, ChangedDir;
      ViewIsPrefixClosed(fs.root);
      if !c.Load? && IsDirAt(View(fs.root), cwd) { StepKeepsDir(View(fs.root), cwd, c); }
      answer := None;
      match c {
        case Cd(target) => CmdCd(target);
        case Touch(name) => var _ := fs.Create(cwd, name);
        case WriteText(name, text) => var _ := fs.Write(cwd, name, text);
        case Rm(name) => var _ := fs.Remove(cwd, name);
        case MakeDir(name) => var _ := fs.Mkdir(cwd, name);
        case Cp(src, dst) => var _ := CmdCp(src, dst);
        case Mv(src, dst) => var _ := CmdMv(src, dst);
        case WriteOutput(name, output) => var _ := fs.Write(cwd, name, output);
        case AppendOutput(name, output) => var _ := AppendTo(name, output);
        case Load =>
          var r, cwd' := CmdLoad(drive, fs, cwd);
          cwd := cwd';
          answer := Some(r);
          RootIsDir(fs.root);
      }
    }

    /** With one shell, every run of commands ends in an existing directory. */
    method Run(commands: seq<Command>)
      requires Valid() && HasDir()
      modifies this`cwd, fs, drive
      ensures Valid() && HasDir()
    {
      for i := 0 to |commands|
        invariant Valid() && HasDir()
      {
        var _ := Execute(commands[i]);
      }
    }
  }

  lemma RootIsDir(root: RamFsCodec.Directory)
    ensures IsDirAt(View(root), [])
  {
  }

  /** `mv` succeeds exactly for a file moved to another name that is no directory; then the contents
      are found under the new name, the old name is gone and nothing else has changed. */
  lemma {:induction false} MoveMoves(v: Flat, cwd: Path, src: Name, dst: Name)
    requires IsDirAt(v, cwd)
    ensures var (v', r) := FlatMove(v, cwd, src, dst);
            && (r == Moved <==> src != dst && FlatRead(v, cwd, src).Some? && !IsDirAt(v, cwd + [dst]))
            && (r != Moved ==> v' == v)
            && (r == Moved ==>
                 && FlatRead(v', cwd, dst) == FlatRead(v, cwd, src)
                 && cwd + [src] !in v'
                 && forall p: Path :: p != cwd + [src] && p != cwd + [dst] ==>
                      (p in v' <==> p in v) && (p in v ==> v'[p] == v[p]))
  {
    if src != dst {
      assert (cwd + [src])[|cwd|] != (cwd + [dst])[|cwd|];
    }
  }

  /** `cd` into a directory and `cd ..` end where they began; a slash or nothing leads to the root, a dot
      nowhere, and any other name only into a directory that is there. */
  lemma {:induction false} CdMoves(v: Flat, cwd: Path, name: Name)
    requires name != [0x2F] && name != [0x2E, 0x2E] && name != [0x2E]
    ensures ChangedDir(v, cwd, Some(name)) == cwd + [name] <==> IsDirAt(v, cwd) && IsDirAt(v, cwd + [name])
    ensures ChangedDir(v, cwd, Some(name)) != cwd + [name] ==> ChangedDir(v, cwd, Some(name)) == cwd
    ensures ChangedDir(v, cwd + [name], Some(Up())) == cwd && ChangedDir(v, [], Some(Up())) == []
    ensures ChangedDir(v, cwd, Some(Root())) == ChangedDir(v, cwd, None) == []
    ensures ChangedDir(v, cwd, Some(Here())) == cwd
    ensures Root() == [0x2F] && Up() == [0x2E, 0x2E] && Here() == [0x2E]
  {
    assert (cwd + [name])[..|cwd|] == cwd;
    assert |cwd + [name]| != |cwd|;
  }

  /** A file moves to another name unless that is a directory; nothing else changes. */
  ghost predicate Moves(v: Flat, cwd: Path, src: Name, dst: Name, v': Flat) {
    exists data :: Reads(v, cwd, src, data) &&
      if src != dst && data.Some? && !IsDirAt(v, cwd + [dst]) then
        && cwd + [src] !in v' && cwd + [dst] in v' && v'[cwd + [dst]] == FileNode(data.value)
        && forall p: Path :: p != cwd + [src] && p != cwd + [dst] ==>
             (p in v' <==> p in v) && (p in v && p in v' ==> v'[p] == v[p])
      else v' == v
  }

  lemma FlatMoveMoves(v: Flat, cwd: Path, src: Name, dst: Name)
    ensures Moves(v, cwd, src, dst, FlatMove(v, cwd, src, dst).0)
  {
    FlatReadReads(v, cwd, src);
    hide Reads;
    if IsDirAt(v, cwd) {
      MoveMoves(v, cwd, src, dst);
    }
  }

  /** What each command does to the files and directories, by what changes. */
  ghost predicate Effect(v: Flat, cwd: Path, c: Command, v': Flat)
    requires !c.Load?
  {
    match c
    case Cd(_) => v' == v
    case Touch(name) => Makes(v, cwd, name, FileNode([]), IsDirAt(v, cwd) && cwd + [name] !in v, v')
    case MakeDir(name) => Makes(v, cwd, name, DirNode, IsDirAt(v, cwd) && cwd + [name] !in v, v')
    case WriteText(name, text) => Writes(v, cwd, name, text, CanWrite(v, cwd, name), v')
    case WriteOutput(name, output) => Writes(v, cwd, name, output, CanWrite(v, cwd, name), v')
    case Rm(name) => exists r :: Removes(v, cwd, name, r, v')
    case Cp(src, dst) =>
      exists data :: Reads(v, cwd, src, data) &&
        if data.None? then v' == v else Writes(v, cwd, dst, data.value, CanWrite(v, cwd, dst), v')
    case AppendOutput(name, output) =>
      exists data :: Reads(v, cwd, name, data) &&
        Writes(v, cwd, name, Appended(if data.Some? then data.value else [], output), CanWrite(v, cwd, name), v')
    case Mv(src, dst) => Moves(v, cwd, src, dst, v')
  }

  ghost predicate CanWrite(v: Flat, cwd: Path, name: Name) {
    IsDirAt(v, cwd) && !IsDirAt(v, cwd + [name])
  }

  lemma {:induction false} CommandsDo(v: Flat, cwd: Path, c: Command)
    requires !c.Load?
    ensures Effect(v, cwd, c, ShellStep(v, cwd, c).0)
    ensures !c.Cd? ==> ShellStep(v, cwd, c).1 == cwd
  {
    hide Writes, Makes, Removes, Reads, Moves, FlatMove, Appended;
    match c {
      case Cd(_) =>
      case Touch(name) => FlatCreateMakes(v, cwd, name);
      case WriteText(name, text) => FlatWriteWrites(v, cwd, name, text);
      case Rm(name) => FlatRemoveRemoves(v, cwd, name);
      case MakeDir(name) => FlatMkdirMakes(v, cwd, name);
      case Cp(src, dst) =>
        var data := FlatRead(v, cwd, src);
        FlatReadReads(v, cwd, src);
        FlatWriteWrites(v, cwd, dst, if data.Some? then data.value else []);
      case Mv(src, dst) => FlatMoveMoves(v, cwd, src, dst);
      case WriteOutput(name, output) => FlatWriteWrites(v, cwd, name, output);
      case AppendOutput(name, output) =>
        var data := FlatRead(v, cwd, name);
        FlatReadReads(v, cwd, name);
        FlatWriteWrites(v, cwd, name, Appended(if data.Some? then data.value else [], output));
    }
  }
}
