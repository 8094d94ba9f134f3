/** The file descriptor table of the system calls, and the byte stream a descriptor delivers. */
module Descriptors {
  import opened Wrappers
  import opened Bytes
  import opened Names
  import opened FlatFs
  import opened RamFs
  import opened Paths

  const MAX_FDS: nat := 16
  const RESERVED_FDS: nat := 3

  datatype OpenFile = OpenFile(path: Path, name: Name, offset: nat)
  type Fds = seq<Option<OpenFile>>

  ghost predicate WellFormed(fds: Fds) {
    |fds| == 16 && forall i :: 0 <= i < 3 ==> fds[i] == None
  }

  // ---------- specification; None stands for the error value u64::MAX ----------

  /** The least free descriptor that is not reserved. */
  ghost predicate IsFree(fds: Fds, r: Option<nat>) {
    match r
    case Some(fd) => 3 <= fd < |fds| && fds[fd] == None && forall i :: 3 <= i < fd ==> fds[i] != None
    case None => forall i :: 3 <= i < |fds| ==> fds[i] != None
  }

  /** `text` names an existing file. */
  ghost predicate NamesFile(v: Flat, text: seq<byte>) {
    IsUtf8(text) && var (dir, name) := ParseFilePath(text); FlatRead(v, dir, name).Some?
  }

  ghost function Available(data: seq<byte>, offset: nat, len: nat): (r: seq<byte>) {
    if offset >= |data| then []
    else if |data| - offset <= len then data[offset..]
    else data[offset..offset + len]
  }

  ghost function Reading(fds: Fds, v: Flat, fd: nat, len: nat): (Fds, Option<seq<byte>>) {
    if fd >= |fds| || fds[fd] == None then (fds, None)
    else
      var f := fds[fd].value;
      match FlatRead(v, f.path, f.name)
      case None => (fds, None)
      case Some(data) =>
        var got := Available(data, f.offset, len);
        (fds[fd := Some(f.(offset := f.offset + |got|))], Some(got))
  }

  ghost function Closing(fds: Fds, fd: nat): (Fds, bool) {
    if fd < 3 || fd >= |fds| || fds[fd] == None then (fds, false) else (fds[fd := None], true)
  }

  /** Opening sets one free descriptor to the start of an existing file, or changes nothing. */
  ghost predicate Opening(fds: Fds, v: Flat, text: seq<byte>, r: Option<nat>, fds': Fds) {
    match r
    case Some(fd) =>
      && NamesFile(v, text) && IsFree(fds, r)
      && var (dir, name) := ParseFilePath(text); fds' == fds[fd := Some(OpenFile(dir, name, 0))]
    case None => fds' == fds && (!NamesFile(v, text) || IsFree(fds, None))
  }

  // ---------- the same calls by what they deliver and change ----------

  ghost predicate OnlyFd(fds: Fds, fds': Fds, fd: nat) {
    |fds'| == |fds| && forall i :: 0 <= i < |fds| && i != fd ==> fds'[i] == fds[i]
  }

  function Min(a: int, b: int): int {
    if a <= b then a else b
  }

  /** A read fails, changing nothing, exactly on a closed descriptor or a file that is gone; otherwise it
      delivers the next bytes, as many as asked for or as there are left, and moves on by so many. */
  ghost predicate Delivers(fds: Fds, v: Flat, fd: nat, len: nat, r: Option<seq<byte>>, fds': Fds)
    requires |fds| == 16
  {
    if fd < 16 && fds[fd].Some? && FlatRead(v, fds[fd].value.path, fds[fd].value.name).Some? then
      var f, data := fds[fd].value, FlatRead(v, fds[fd].value.path, fds[fd].value.name).value;
      && r.Some? && |r.value| == (if f.offset <= |data| then Min(len, |data| - f.offset) else 0)
      && (forall i :: 0 <= i < |r.value| ==> f.offset + i < |data| && r.value[i] == data[f.offset + i])
      && OnlyFd(fds, fds', fd) && |fds'| == 16
      && fds'[fd] == Some(OpenFile(f.path, f.name, f.offset + |r.value|))
    else
      r == None && fds' == fds
  }

  lemma {:induction false} ReadingDelivers(fds: Fds, v: Flat, fd: nat, len: nat)
    requires |fds| == 16
    ensures var (fds', r) := Reading(fds, v, fd, len); Delivers(fds, v, fd, len, r, fds')
  {
    hide FlatRead;
  }

  /** Closing frees exactly an open descriptor that is not reserved. */
  lemma {:induction false} ClosingFrees(fds: Fds, fd: nat)
    requires |fds| == 16
    ensures var (fds', ok) := Closing(fds, fd);
            && (ok <==> 3 <= fd < 16 && fds[fd].Some?)
            && if ok then OnlyFd(fds, fds', fd) && |fds'| == 16 && fds'[fd] == None else fds' == fds
  {
  }

  // ---------- the table ----------

  class FdTable {
    const table: array<Option<OpenFile>>

    ghost predicate Valid()
      reads table
    {
      WellFormed(table[..])
    }

    constructor ()
      ensures Valid() && fresh(table) && forall i :: 0 <= i < |table[..]| ==> table[i] == None
    {
      table := new Option<OpenFile>[MAX_FDS](_ => None);
    }

    method AllocFd() returns (r: Option<nat>)
      requires Valid()
      ensures IsFree(table[..], r)
    {
      for i := RESERVED_FDS to MAX_FDS
        invariant forall k :: 3 <= k < i ==> table[k] != None
      {
        if table[i].None? { return Some(i); }
      }
      r := None;
    }

    method SysOpen(fs: RamFs, text: seq<byte>) returns (r: Option<nat>)
      requires Valid()
      modifies table
      ensures Valid() && Opening(old(table[..]), View(fs.root), text, r, table[..])
    {
      if !IsUtf8(text) { return None; }
      var (dir, name) := ParseFilePath(text);
      var exists_ := fs.Exists(dir, name);
      if !exists_ { return None; }
      var isDir := fs.IsDir(dir, name);
      if isDir { return None; }
      var fd := AllocFd();
      if fd.None? { return None; }
      table[fd.value] := Some(OpenFile(dir, name, 0));
      r := fd;
    }

    /** The bytes copied to the caller's buffer; their number is the return value. */
    method SysRead(fs: RamFs, fd: nat, len: nat) returns (r: Option<seq<byte>>)
      requires Valid()
      modifies table
      ensures Valid() && (table[..], r) == Reading(old(table[..]), View(fs.root), fd, len)
      ensures Delivers(old(table[..]), View(fs.root), fd, len, r, table[..])
    {
      ReadingDelivers(table[..], View(fs.root), fd, len);
      hide Delivers;
      if fd >= MAX_FDS || table[fd].None? { return None; }
      var file := table[fd].value;
      var data := fs.Read(file.path, file.name);
      if data.None? { return None; }
      var remaining := if file.offset < |data.value| then data.value[file.offset..] else [];
      var toRead := if |remaining| <= len then |remaining| else len;
      var got := remaining[..toRead];
      assert got == Available(data.value, file.offset, len);
      table[fd] := Some(file.(offset := file.offset + toRead));
      r := Some(got);
    }

    method SysClose(fd: nat) returns (ok: bool)
      requires Valid()
      modifies table
      ensures Valid() && (table[..], ok) == Closing(old(table[..]), fd)
    {
      if fd < RESERVED_FDS || fd >= MAX_FDS || table[fd].None? { return false; }
      table[fd] := None;
      ok := true;
    }
  }

  // ---------- streams over any interleaving ----------

  /** The outcome of one system call, or a change of the file system by someone else. */
  datatype Event =
    | Opened(text: seq<byte>, result: Option<nat>)
    | DidRead(fd: nat, len: nat, got: Option<seq<byte>>)
    | Closed(fd: nat, ok: bool)
    | FsChanged(v: Flat)

  ghost predicate Happens(fds: Fds, v: Flat, e: Event, fds': Fds, v': Flat) {
    match e
    case Opened(text, r) => v' == v && Opening(fds, v, text, r, fds')
    case DidRead(fd, len, got) => v' == v && (fds', got) == Reading(fds, v, fd, len)
    case Closed(fd, ok) => v' == v && (fds', ok) == Closing(fds, fd)
    case FsChanged(w) => v' == w && fds' == fds
  }

  datatype State = State(fds: Fds, v: Flat)

  /** `states` is a run of the table whose steps are `events`. */
  ghost predicate IsRun(states: seq<State>, events: seq<Event>) {
    && |states| == |events| + 1
    && forall i :: 0 <= i < |events| ==>
         Happens(states[i].fds, states[i].v, events[i], states[i + 1].fds, states[i + 1].v)
  }

  /** What reads on `fd` delivered, in order. */
  ghost function Delivered(events: seq<Event>, fd: nat): seq<byte> {
    if events == [] then []
    else
      var e := events[|events| - 1];
      Delivered(events[..|events| - 1], fd) + if e.DidRead? && e.fd == fd && e.got.Some? then e.got.value else []
  }

  /** While its file keeps its contents and the descriptor is not closed, what a descriptor has
      delivered since it was opened is the beginning of the file, as long as its offset says. */
  lemma {:induction false} DeliversPrefix(states: seq<State>, events: seq<Event>, fd: nat,
                                          path: Path, name: Name, data: seq<byte>)
    requires IsRun(states, events) && WellFormed(states[0].fds)
    requires 3 <= fd < 16 && states[0].fds[fd] == Some(OpenFile(path, name, 0))
    requires forall i :: 0 <= i < |states| ==> FlatRead(states[i].v, path, name) == Some(data)
    requires forall e :: e in events ==> !(e.Closed? && e.fd == fd)
    ensures var last := states[|states| - 1].fds;
            && WellFormed(last) && |Delivered(events, fd)| <= |data|
            && last[fd] == Some(OpenFile(path, name, |Delivered(events, fd)|))
            && Delivered(events, fd) == data[..|Delivered(events, fd)|]
    decreases |events|
  {
    if events != [] {
      var n := |events|;
      var before, earlier := states[..n], events[..n - 1];
      assert before[|before| - 1] == states[n - 1];
      DeliversPrefix(before, earlier, fd, path, name, data);
      var e, sofar := events[n - 1], Delivered(earlier, fd);
      assert e in events;
      EventKeepsStream(states[n - 1], e, states[n], fd, path, name, data, sofar);
    }
  }

  lemma {:induction false} EventKeepsStream(s: State, e: Event, s': State, fd: nat,
                                            path: Path, name: Name, data: seq<byte>, sofar: seq<byte>)
    requires Happens(s.fds, s.v, e, s'.fds, s'.v) && WellFormed(s.fds) && FlatRead(s.v, path, name) == Some(data)
    requires 3 <= fd < 16 && |sofar| <= |data| && sofar == data[..|sofar|]
    requires s.fds[fd] == Some(OpenFile(path, name, |sofar|)) && !(e.Closed? && e.fd == fd)
    ensures var more := if e.DidRead? && e.fd == fd && e.got.Some? then e.got.value else [];
            && WellFormed(s'.fds) && |sofar + more| <= |data| && sofar + more == data[..|sofar + more|]
            && s'.fds[fd] == Some(OpenFile(path, name, |sofar + more|))
  {
    hide FlatRead, ParseFilePath, NamesFile;
    if e.DidRead? && e.fd == fd {
      var got := Available(data, |sofar|, e.len);
      assert sofar + got == data[..|sofar + got|];
    }
  }

  /** A read for at least one byte comes back empty exactly at the end of the file. */
  lemma {:induction false} EmptyReadMeansEnd(fds: Fds, v: Flat, fd: nat, len: nat)
    requires fd < |fds| && fds[fd].Some? && len > 0
    requires FlatRead(v, fds[fd].value.path, fds[fd].value.name).Some?
    ensures var data := FlatRead(v, fds[fd].value.path, fds[fd].value.name).value;
            Reading(fds, v, fd, len).1 == Some([]) <==> fds[fd].value.offset >= |data|
  {
  }

  /** No call touches a descriptor it was not given. */
  lemma {:induction false} OthersUntouched(s: State, e: Event, s': State, other: nat)
    requires Happens(s.fds, s.v, e, s'.fds, s'.v) && other < |s.fds|
    requires match e
             case Opened(_, r) => r != Some(other)
             case DidRead(fd, _, _) => fd != other
             case Closed(fd, _) => fd != other
             case FsChanged(_) => true
    ensures other < |s'.fds| && s'.fds[other] == s.fds[other]
  {
    hide FlatRead, ParseFilePath, NamesFile;
  }

  /** A successful open gives the least free descriptor that is not reserved, set to the start of the file
      the text names; it fails exactly if the text names no file or no descriptor is free. */
  lemma {:induction false} OpenIsFresh(s: State, text: seq<byte>, r: Option<nat>, s': State)
    requires Happens(s.fds, s.v, Opened(text, r), s'.fds, s'.v) && |s.fds| == 16
    ensures r == None <==>
      || !IsUtf8(text) || FlatRead(s.v, ParseFilePath(text).0, ParseFilePath(text).1).None?
      || forall i :: 3 <= i < 16 ==> s.fds[i].Some?
    ensures r == None ==> s'.fds == s.fds
    ensures r.Some? ==>
      && IsUtf8(text) && 3 <= r.value < 16 && s.fds[r.value] == None
      && (forall i :: 3 <= i < r.value ==> s.fds[i].Some?)
      && OnlyFd(s.fds, s'.fds, r.value) && |s'.fds| == 16
      && s'.fds[r.value] == Some(OpenFile(ParseFilePath(text).0, ParseFilePath(text).1, 0))
  {
    hide FlatRead, ParseFilePath;
  }
}
