/** Several shells on one file system: which commands of one shell take away the working directory
    of another, over whole runs. */
module Shells {
  import opened Wrappers
  import opened Names
  import opened FlatFs
  import opened RamFs
  import opened Ata
  import opened DiskImage
  import opened Shell
  import RamFsCodec

  // ---------- one command ----------

  /** The guard of the one branch that removes a directory: `rm` of an empty one by its name. */
  ghost predicate RemovesDir(v: Flat, cwd: Path, c: Command, other: Path) {
    c.Rm? && other == cwd + [c.name] && !Occupied(v, other)
  }

  /** Of all commands only `rm` takes a directory away, and only an empty one directly below its own. */
  lemma {:induction false} OtherDirVanishesIff(v: Flat, cwd: Path, c: Command, other: Path)
    requires PrefixClosed(v) && IsDirAt(v, cwd) && IsDirAt(v, other) && !c.Load?
    ensures !IsDirAt(ShellStep(v, cwd, c).0, other) <==> RemovesDir(v, cwd, c, other)
  {
    hide Occupied, PrefixClosed, Appended;
    if c.Mv? && FlatRead(v, cwd, c.src).Some? {
      assert other != cwd + [c.src];
    }
  }

  /** A `load` takes away exactly the directories that the loaded tree does not have. */
  lemma LoadKeepsDirIff(root: RamFsCodec.Directory, other: Path)
    ensures IsDirAt(View(root), other) <==> Lookup(root, other).Some?
  {
    LookupIsDir(root, other);
  }

  /** A shell whose directory is gone can change nothing but its working directory. */
  lemma OrphanIsInert(v: Flat, cwd: Path, c: Command)
    requires !IsDirAt(v, cwd) && !c.Load?
    ensures ShellStep(v, cwd, c).0 == v && (!c.Cd? ==> ShellStep(v, cwd, c).1 == cwd)
    ensures c.Cd? && ShellStep(v, cwd, c).1 != cwd ==>
      ShellStep(v, cwd, c).1 == [] || (cwd != [] && ShellStep(v, cwd, c).1 == cwd[..|cwd| - 1])
  {
  }

  // ---------- runs ----------

  datatype System = System(v: Flat, cwds: seq<Path>)

  /** A command by one of the shells (a `load` that fails does nothing), or a `load` that succeeds. */
  datatype Event = Ran(shell: nat, c: Command) | Installed(shell: nat, root: RamFsCodec.Directory)

  ghost predicate AllLive(s: System) {
    forall j :: 0 <= j < |s.cwds| ==> IsDirAt(s.v, s.cwds[j])
  }

  ghost function After(s: System, e: Event): System
    requires e.shell < |s.cwds|
  {
    match e
    case Ran(i, c) =>
      if c.Load? then s
      else
        var (v', cwd') := ShellStep(s.v, s.cwds[i], c);
        System(v', s.cwds[i := cwd'])
    case Installed(i, root) => System(View(root), s.cwds[i := []])
  }

  /** The event takes away the directory some other shell is in. */
  ghost predicate Orphans(s: System, e: Event)
    requires e.shell < |s.cwds|
  {
    exists j :: 0 <= j < |s.cwds| && j != e.shell &&
      match e
      case Ran(i, c) => RemovesDir(s.v, s.cwds[i], c, s.cwds[j])
      case Installed(_, root) => Lookup(root, s.cwds[j]).None?
  }

  lemma {:induction false} StepOrphansIff(s: System, e: Event)
    requires PrefixClosed(s.v) && AllLive(s) && e.shell < |s.cwds|
    ensures PrefixClosed(After(s, e).v) && (AllLive(After(s, e)) <==> !Orphans(s, e))
  {
    match e {
      case Installed(i, root) => LoadOrphansIff(s, i, root);
      case Ran(i, c) => if !c.Load? { CommandOrphansIff(s, i, c); } else { assert !Orphans(s, e); }
    }
  }

  lemma LoadOrphansIff(s: System, i: nat, root: RamFsCodec.Directory)
    requires i < |s.cwds|
    ensures var e := Installed(i, root); PrefixClosed(After(s, e).v) && (AllLive(After(s, e)) <==> !Orphans(s, e))
  {
    hide View, PrefixClosed;
    ViewIsPrefixClosed(root);
    RootIsDir(root);
    var s' := After(s, Installed(i, root));
    forall j | 0 <= j < |s.cwds| ensures IsDirAt(View(root), s.cwds[j]) <==> Lookup(root, s.cwds[j]).Some? {
      LoadKeepsDirIff(root, s.cwds[j]);
    }
    assert forall j :: 0 <= j < |s.cwds| && j != i ==> s'.cwds[j] == s.cwds[j];
  }

  lemma CommandOrphansIff(s: System, i: nat, c: Command)
    requires PrefixClosed(s.v) && AllLive(s) && i < |s.cwds| && !c.Load?
    ensures var e := Ran(i, c); PrefixClosed(After(s, e).v) && (AllLive(After(s, e)) <==> !Orphans(s, e))
  {
    hide PrefixClosed, RemovesDir, ShellStep, IsDirAt;
    var s' := After(s, Ran(i, c));
    StepKeepsDir(s.v, s.cwds[i], c);
    forall j | 0 <= j < |s.cwds| ensures !IsDirAt(s'.v, s.cwds[j]) <==> RemovesDir(s.v, s.cwds[i], c, s.cwds[j]) {
      OtherDirVanishesIff(s.v, s.cwds[i], c, s.cwds[j]);
    }
    assert forall j :: 0 <= j < |s.cwds| && j != i ==> s'.cwds[j] == s.cwds[j];
  }

  ghost predicate IsRun(s: System, events: seq<Event>) {
    forall k :: 0 <= k < |events| ==> events[k].shell < |s.cwds|
  }

  ghost function AfterRun(s: System, events: seq<Event>): (s': System)
    requires IsRun(s, events)
    ensures |s'.cwds| == |s.cwds|
  {
    if events == [] then s else After(AfterRun(s, events[..|events| - 1]), events[|events| - 1])
  }

  /** At no point of the run is a shell in a directory that is not there. */
  ghost predicate StaysLive(s: System, events: seq<Event>)
    requires IsRun(s, events)
  {
    forall k :: 0 <= k <= |events| ==> AllLive(AfterRun(s, events[..k]))
  }

  ghost predicate NeverOrphans(s: System, events: seq<Event>)
    requires IsRun(s, events)
  {
    forall k :: 0 <= k < |events| ==> !Orphans(AfterRun(s, events[..k]), events[k])
  }

  /** Any number of shells stay in existing directories through a whole run exactly when no event of
      it is an `rm` of a directory another shell is in, or a `load` of a tree that lacks one. */
  lemma {:induction false} ShellsStayLiveIff(s: System, events: seq<Event>)
    requires PrefixClosed(s.v) && AllLive(s) && IsRun(s, events)
    ensures StaysLive(s, events) <==> NeverOrphans(s, events)
  {
    hide AllLive, Orphans, PrefixClosed, After;
    if NeverOrphans(s, events) {
      forall k | 0 <= k <= |events| ensures AllLive(AfterRun(s, events[..k])) {
        LiveUpTo(s, events, k);
      }
    }
    if StaysLive(s, events) {
      forall k | 0 <= k < |events| ensures !Orphans(AfterRun(s, events[..k]), events[k]) {
        OneMoreEvent(s, events, k);
        ClosedUpTo(s, events, k);
        StepOrphansIff(AfterRun(s, events[..k]), events[k]);
      }
    }
  }

  lemma NoEventsYet(s: System)
    ensures IsRun(s, []) && AfterRun(s, []) == s
  {
  }

  lemma RunGrows(s: System, events: seq<Event>, e: Event)
    requires IsRun(s, events) && e.shell < |s.cwds|
    ensures IsRun(s, events + [e]) && AfterRun(s, events + [e]) == After(AfterRun(s, events), e)
  {
    assert (events + [e])[..|events|] == events;
  }

  lemma OneMoreEvent(s: System, events: seq<Event>, k: nat)
    requires IsRun(s, events) && k < |events|
    ensures AfterRun(s, events[..k + 1]) == After(AfterRun(s, events[..k]), events[k])
  {
    assert events[..k + 1][..k] == events[..k];
  }

  lemma {:induction false} ClosedUpTo(s: System, events: seq<Event>, k: nat)
    requires PrefixClosed(s.v) && IsRun(s, events) && k <= |events|
    ensures PrefixClosed(AfterRun(s, events[..k]).v)
    decreases k
  {
    hide After, PrefixClosed;
    if k > 0 {
      ClosedUpTo(s, events, k - 1);
      OneMoreEvent(s, events, k - 1);
      StepKeepsClosed(AfterRun(s, events[..k - 1]), events[k - 1]);
    }
  }

  /** The tree stays closed even when shells act in directories that are gone. */
  lemma StepKeepsClosed(s: System, e: Event)
    requires PrefixClosed(s.v) && e.shell < |s.cwds|
    ensures PrefixClosed(After(s, e).v)
  {
    hide PrefixClosed, ShellStep, View;
    match e {
      case Installed(_, root) => ViewIsPrefixClosed(root);
      case Ran(i, c) =>
        if !c.Load? {
          if IsDirAt(s.v, s.cwds[i]) {
            StepKeepsDir(s.v, s.cwds[i], c);
          } else {
            OrphanIsInert(s.v, s.cwds[i], c);
          }
        }
    }
  }

  lemma {:induction false} LiveUpTo(s: System, events: seq<Event>, k: nat)
    requires PrefixClosed(s.v) && AllLive(s) && IsRun(s, events) && NeverOrphans(s, events) && k <= |events|
    ensures AllLive(AfterRun(s, events[..k]))
    decreases k
  {
    hide AllLive, Orphans, PrefixClosed, After;
    if k > 0 {
      LiveUpTo(s, events, k - 1);
      ClosedUpTo(s, events, k - 1);
      OneMoreEvent(s, events, k - 1);
      StepOrphansIff(AfterRun(s, events[..k - 1]), events[k - 1]);
    }
  }

  // ---------- the shells as objects ----------

  ghost function Now(fs: RamFs, shells: seq<Shell>): (s: System)
    reads fs, shells
    ensures |s.cwds| == |shells|
  {
    System(View(fs.root), seq(|shells|, i requires 0 <= i < |shells| reads shells => shells[i].cwd))
  }

  /** What a turn comes to: a command runs, and a `load` does nothing or installs the tree on the disk. */
  ghost predicate ComesTo(turn: (nat, Command), disk: Option<RamFsCodec.Directory>, e: Event) {
    e == Ran(turn.0, turn.1) || (turn.1.Load? && e.Installed? && e.shell == turn.0 && Some(e.root) == disk)
  }

  ghost predicate Share(shells: seq<Shell>, fs: RamFs, drive: Drive) {
    && (forall i :: 0 <= i < |shells| ==> shells[i].fs == fs && shells[i].drive == drive)
    && (forall i, j :: 0 <= i < j < |shells| ==> shells[i] != shells[j])
  }

  /** Shells that share a file system and a drive, taking turns: what happens is one of the runs above. */
  method Serve(fs: RamFs, drive: Drive, shells: seq<Shell>, turns: seq<(nat, Command)>)
    returns (ghost events: seq<Event>)
    requires drive.Valid() && Share(shells, fs, drive) && forall k :: 0 <= k < |turns| ==> turns[k].0 < |shells|
    modifies fs, drive, shells
    ensures drive.Valid() && |events| == |turns|
    ensures forall k :: 0 <= k < |turns| ==> ComesTo(turns[k], LoadTree(drive.Contents()), events[k])
    ensures IsRun(old(Now(fs, shells)), events) && Now(fs, shells) == AfterRun(old(Now(fs, shells)), events)
  {
    hide LoadTree, After, AfterRun, IsRun, ComesTo, Now, View;
    ghost var start := Now(fs, shells);
    NoEventsYet(start);
    events := [];
    for k := 0 to |turns|
      invariant drive.Valid() && drive.Contents() == old(drive.Contents()) && |events| == k
      invariant forall i :: 0 <= i < k ==> ComesTo(turns[i], LoadTree(drive.Contents()), events[i])
      invariant IsRun(start, events) && Now(fs, shells) == AfterRun(start, events)
    {
      ghost var e := Turn(fs, drive, shells, turns[k].0, turns[k].1);
      RunGrows(start, events, e);
      events := events + [e];
    }
  }

  method Turn(fs: RamFs, drive: Drive, shells: seq<Shell>, i: nat, c: Command) returns (ghost e: Event)
    requires drive.Valid() && Share(shells, fs, drive) && i < |shells|
    modifies fs, drive, shells[i]
    ensures drive.Valid() && drive.Contents() == old(drive.Contents())
    ensures ComesTo((i, c), LoadTree(drive.Contents()), e) && e.shell == i
    ensures Now(fs, shells) == After(old(Now(fs, shells)), e)
  {
    hide View, ShellStep, LoadTree, LoadAnswer;
    ghost var cwds := Now(fs, shells).cwds;
    var answer := shells[i].Execute(c);
    e := if answer.Some? && answer.value.Loaded? then Installed(i, fs.root) else Ran(i, c);
    assert Now(fs, shells).cwds == cwds[i := shells[i].cwd];
  }
}
