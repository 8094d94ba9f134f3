/** Paths as text: `parse_file_path` of the system calls and the path that `pwd` prints. */
module Paths {
  import opened Bytes
  import opened Names
  import opened FlatFs

  const SLASH: byte := 0x2F

  // ---------- slashes never split a character ----------

  /** Cutting well-formed text in front of an ASCII byte leaves two well-formed halves. */
  lemma {:induction false} Utf8SplitsAtAscii(s: seq<byte>, i: nat)
    requires IsUtf8(s) && i < |s| && s[i] < 0x80
    ensures IsUtf8(s[..i]) && IsUtf8(s[i + 1..])
    decreases |s|
  {
    var n := CharLength(s);
    if i < n {
      assert i == 0;
      assert s[..0] == [];
    } else {
      var rest := s[n..];
      assert rest[i - n] == s[i];
      Utf8SplitsAtAscii(rest, i - n);
      assert rest[i - n + 1..] == s[i + 1..];
      var head := s[..i];
      assert head[n..] == rest[..i - n];
      assert CharLength(head) == n by { CharLengthOfPrefix(s, i); }
    }
  }

  lemma {:induction false} CharLengthOfPrefix(s: seq<byte>, i: nat)
    requires s != [] && CharLength(s) > 0 && CharLength(s) <= i <= |s|
    ensures CharLength(s[..i]) == CharLength(s)
  {
  }

  lemma {:induction false} Utf8Concat(a: seq<byte>, b: seq<byte>)
    requires IsUtf8(a) && IsUtf8(b)
    ensures IsUtf8(a + b)
    decreases |a|
  {
    if a == [] {
      assert a + b == b;
    } else {
      var n := CharLength(a);
      Utf8Concat(a[n..], b);
      assert (a + b)[n..] == a[n..] + b;
      assert (a + b)[..|a|] == a;
      CharLengthGrows(a, b);
    }
  }

  lemma {:induction false} CharLengthGrows(a: seq<byte>, b: seq<byte>)
    requires a != [] && CharLength(a) > 0
    ensures CharLength(a + b) == CharLength(a)
  {
    assert forall k :: 0 <= k < |a| ==> (a + b)[k] == a[k];
  }

  // ---------- splitting ----------

  ghost predicate FreeOfSlash(s: seq<byte>) {
    SLASH !in s
  }

  /** A component that a path text can carry. */
  ghost predicate IsComponent(n: Name) {
    n != [] && FreeOfSlash(n)
  }

  /** Length of the text before the first slash. */
  function UntilSlash(s: seq<byte>): (n: nat)
    ensures n <= |s| && (n < |s| ==> s[n] == SLASH) && FreeOfSlash(s[..n])
  {
    if s == [] || s[0] == SLASH then 0
    else
      assert s[..1 + UntilSlash(s[1..])] == [s[0]] + s[1..][..UntilSlash(s[1..])];
      1 + UntilSlash(s[1..])
  }

  lemma {:induction false} PieceIsUtf8(s: seq<byte>)
    requires IsUtf8(s)
    ensures IsUtf8(s[..UntilSlash(s)]) && (UntilSlash(s) < |s| ==> IsUtf8(s[UntilSlash(s) + 1..]))
  {
    var n := UntilSlash(s);
    if n < |s| {
      Utf8SplitsAtAscii(s, n);
    } else {
      assert s[..n] == s;
    }
  }

  /** `split('/')`, then dropping the empty pieces. */
  function Components(s: Name): (r: Path)
    ensures forall i :: 0 <= i < |r| ==> IsComponent(r[i])
    decreases |s|
  {
    var n := UntilSlash(s);
    PieceIsUtf8(s);
    var head: seq<Name> := if n == 0 then [] else [s[..n]];
    if n == |s| then head else head + Components(s[n + 1..])
  }

  /** `parse_file_path`: everything but the last component, and the last; nothing at all for a path
      without components. */
  function ParseFilePath(s: Name): (Path, Name) {
    var parts := Components(s);
    if parts == [] then ([], []) else (parts[..|parts| - 1], parts[|parts| - 1])
  }

  /** The loop over the pieces, in the order of the source. */
  method CollectComponents(path: Name) returns (parts: Path)
    ensures parts == Components(path)
  {
    hide IsUtf8, UntilSlash, IsComponent, Components, FreeOfSlash;
    var rest: Name := path;
    parts := [];
    var more := true;
    while more
      invariant Components(path) == if more then parts + Components(rest) else parts
      decreases more, |rest|
    {
      var n := UntilSlash(rest);
      ComponentsTurn(parts, rest);
      if n > 0 {
        var piece: Name := rest[..n];
        parts := parts + [piece];
      }
      if n == |rest| {
        more := false;
      } else {
        rest := rest[n + 1..];
      }
    }
  }

  /** One turn of the loop: the first piece moves from the unread text to the parts, unless empty. */
  lemma ComponentsTurn(before: Path, rest: Name)
    ensures IsUtf8(rest[..UntilSlash(rest)])
    ensures UntilSlash(rest) < |rest| ==> IsUtf8(rest[UntilSlash(rest) + 1..])
    ensures var n := UntilSlash(rest);
            var after: Path := if n > 0 then before + [rest[..n]] else before;
            before + Components(rest) == if n == |rest| then after else after + Components(rest[n + 1..])
  {
    hide IsUtf8, UntilSlash, IsComponent, Components, FreeOfSlash;
    ComponentsStep(rest);
    var n := UntilSlash(rest);
    if n < |rest| {
      if n > 0 {
        Regroup(before, [rest[..n]], Components(rest[n + 1..]));
      } else {
        Regroup(before, [], Components(rest[n + 1..]));
      }
    } else {
      Regroup(before, [], []);
    }
  }

  lemma Regroup(a: Path, b: Path, c: Path)
    ensures a + (b + c) == (a + b) + c && a + [] == a && [] + c == c
  {
  }

  /** One piece more, in the two cases the loop distinguishes. */
  lemma {:induction false} ComponentsStep(s: Name)
    ensures IsUtf8(s[..UntilSlash(s)])
    ensures UntilSlash(s) < |s| ==> IsUtf8(s[UntilSlash(s) + 1..])
    ensures var n := UntilSlash(s);
            var head: Path := if n == 0 then [] else [s[..n]];
            Components(s) == if n == |s| then head else head + Components(s[n + 1..])
  {
    PieceIsUtf8(s);
    hide UntilSlash, IsUtf8;
  }

  // ---------- printing ----------

  /** What `cmd_pwd` prints for a directory other than the root: every component behind a slash. */
  function Joined(p: Path): (s: Name)
    ensures |s| >= |p|
  {
    if p == [] then []
    else
      SlashName();
      Utf8Concat([SLASH], p[0]);
      Utf8Concat([SLASH] + p[0], Joined(p[1..]));
      [SLASH] + p[0] + Joined(p[1..])
  }

  lemma SlashName()
    ensures IsUtf8([SLASH])
  {
    assert [SLASH][1..] == [];
  }

  function Pwd(cwd: Path): Name {
    if cwd == [] then
      SlashName();
      [SLASH]
    else Joined(cwd)
  }

  method CmdPwd(cwd: Path) returns (s: Name)
    ensures s == Pwd(cwd)
  {
    EmptyName();
    SlashName();
    hide IsUtf8, Joined;
    if cwd == [] {
      return [SLASH];
    }
    s := [];
    for i := 0 to |cwd|
      invariant s == Joined(cwd[..i])
    {
      JoinedSnoc(cwd, i);
      Utf8Concat(s, [SLASH]);
      Utf8Concat(s + [SLASH], cwd[i]);
      s := s + [SLASH] + cwd[i];
    }
    assert cwd[..|cwd|] == cwd;
  }

  lemma EmptyName()
    ensures IsUtf8([]) && Joined([]) == []
  {
  }

  lemma {:induction false} JoinedConcat(p: Path, q: Path)
    ensures Joined(p + q) == Joined(p) + Joined(q)
  {
    hide IsUtf8, Joined;
    if p == [] {
      assert p + q == q;
      EmptyName();
    } else {
      JoinedConcat(p[1..], q);
      assert (p + q)[1..] == p[1..] + q;
      JoinedStep(p);
      JoinedStep(p + q);
      var head: seq<byte>, a: seq<byte>, b: seq<byte> := [SLASH] + p[0], Joined(p[1..]), Joined(q);
      assert head + (a + b) == (head + a) + b;
    }
  }

  lemma JoinedStep(p: Path)
    requires p != []
    ensures Joined(p) == [SLASH] + p[0] + Joined(p[1..])
  {
  }

  lemma {:induction false} JoinedSnoc(cwd: Path, i: nat)
    requires i < |cwd|
    ensures Joined(cwd[..i + 1]) == Joined(cwd[..i]) + [SLASH] + cwd[i]
  {
    JoinedConcat(cwd[..i], [cwd[i]]);
    assert cwd[..i + 1] == cwd[..i] + [cwd[i]];
    assert Joined([cwd[i]]) == [SLASH] + cwd[i];
  }

  lemma {:induction false} UntilSlashAt(a: seq<byte>, b: seq<byte>)
    requires FreeOfSlash(a) && (b == [] || b[0] == SLASH)
    ensures UntilSlash(a + b) == |a|
  {
    if a == [] {
      assert a + b == b;
    } else {
      assert (a + b)[1..] == a[1..] + b;
      UntilSlashAt(a[1..], b);
    }
  }

  /** Components that contain no slash come back from the printed path. */
  lemma {:induction false} JoinedSplits(p: Path)
    requires forall i :: 0 <= i < |p| ==> IsComponent(p[i])
    ensures Components(Joined(p)) == p
  {
    hide IsUtf8;
    if p != [] {
      var tail := Joined(p[1..]);
      Utf8Concat(p[0], tail);
      var rest: Name := p[0] + tail;
      assert Joined(p) == [SLASH] + rest;
      AfterSlash(Joined(p), rest);
      AfterComponent(p[0], tail);
      JoinedSplits(p[1..]);
    }
  }

  lemma {:induction false} AfterSlash(s: Name, rest: Name)
    requires s == [SLASH] + rest
    ensures Components(s) == Components(rest)
  {
    hide IsUtf8;
    assert UntilSlash(s) == 0;
    assert s[1..] == rest;
  }

  /** Behind a component comes nothing, or a slash and the rest. */
  lemma {:induction false} AfterComponent(c: Name, tail: Name)
    requires IsComponent(c) && (tail == [] || tail[0] == SLASH) && IsUtf8(c + tail)
    ensures Components(c + tail) == [c] + Components(tail)
  {
    hide IsUtf8, UntilSlash;
    UntilSlashAt(c, tail);
    assert (c + tail)[..|c|] == c;
    if tail == [] {
      NoComponents();
    } else {
      TailIsUtf8(tail);
      AfterSlash(tail, tail[1..]);
      assert (c + tail)[|c| + 1..] == tail[1..];
    }
  }

  lemma NoComponents()
    ensures Components([]) == []
  {
  }

  lemma TailIsUtf8(s: Name)
    requires s != [] && s[0] == SLASH
    ensures IsUtf8(s[1..])
  {
    Utf8SplitsAtAscii(s, 0);
  }

  /** The working directory can be read back from what `pwd` prints exactly when no component is
      empty or contains a slash; `mkdir` accepts such names, the system calls cannot reach them. */
  lemma {:induction false} PwdReadsBackIff(cwd: Path)
    ensures Components(Pwd(cwd)) == cwd <==> forall i :: 0 <= i < |cwd| ==> IsComponent(cwd[i])
  {
    if cwd == [] {
      SlashName();
      assert Components([SLASH]) == Components([]) == [];
    } else if forall i :: 0 <= i < |cwd| ==> IsComponent(cwd[i]) {
      JoinedSplits(cwd);
    }
  }

  /** A file named relative to a directory is found again through the absolute path text. */
  lemma {:induction false} AbsolutePathParses(dir: Path, name: Name)
    requires (forall i :: 0 <= i < |dir| ==> IsComponent(dir[i])) && IsComponent(name)
    ensures ParseFilePath(Joined(dir + [name])) == (dir, name)
  {
    JoinedSplits(dir + [name]);
    assert (dir + [name])[..|dir|] == dir;
  }

  /** In bytes: the root prints as one slash, and directory `a` as a slash and the letter. */
  lemma {:induction false} PwdInBytes(name: Name)
    ensures Pwd([]) == [0x2F] && Pwd([name]) == [0x2F] + name
  {
    JoinedStep([name]);
    EmptyName();
  }

  /** How any text splits: nothing has no components, a slash adds none, and a component ends at the
      next slash or at the end. */
  lemma {:induction false} SplittingLaws(c: Name, rest: Name)
    requires c != [] && 0x2F !in c
    ensures IsUtf8([0x2F] + rest) && IsUtf8(c + ([0x2F] + rest))
    ensures Components([]) == [] && Components([0x2F] + rest) == Components(rest)
    ensures Components(c) == [c] && Components(c + ([0x2F] + rest)) == [c] + Components(rest)
    ensures ParseFilePath([]) == ([], []) && ParseFilePath(c) == ([], c)
  {
    hide IsUtf8, UntilSlash;
    EmptyName();
    SlashName();
    NoComponents();
    Utf8Concat([SLASH], rest);
    var tail: Name := [SLASH] + rest;
    Utf8Concat(c, tail);
    AfterSlash(tail, rest);
    AfterComponent(c, tail);
    assert c + [] == c;
    AfterComponent(c, []);
    assert [c] + Components([]) == [c];
  }
}
