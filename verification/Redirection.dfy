/** The two parsers of `>`, `>>` and `<`: the text shell's and the graphical terminal's. */
module Redirection {
  import opened Wrappers

  datatype Output = Print | Write(file: string) | Append(file: string)
  datatype Parsed = Parsed(pipeline: string, input: Option<string>, output: Output)

  // ---------- the string operations both use ----------

  /** The Unicode property `White_Space`, by which `str::trim` goes. */
  predicate IsSpace(c: char) {
    var n := c as int;
    9 <= n <= 13 || n in {0x20, 0x85, 0xA0, 0x1680, 0x2028, 0x2029, 0x202F, 0x205F, 0x3000} || 0x2000 <= n <= 0x200A
  }

  function TrimStart(s: string): string {
    if s != "" && IsSpace(s[0]) then TrimStart(s[1..]) else s
  }

  function TrimEnd(s: string): string {
    if s != "" && IsSpace(s[|s| - 1]) then TrimEnd(s[..|s| - 1]) else s
  }

  function Trim(s: string): string {
    TrimEnd(TrimStart(s))
  }

  /** `rfind` of a character. */
  function LastIndex(s: string, c: char): (r: Option<nat>)
    ensures r.Some? ==> r.value < |s| && s[r.value] == c
    ensures forall i :: 0 <= i < |s| && (r.Some? ==> i > r.value) ==> s[i] != c
  {
    if s == "" then None
    else if s[|s| - 1] == c then Some(|s| - 1)
    else LastIndex(s[..|s| - 1], c)
  }

  /** `rfind` of `">>"`. */
  function LastPair(s: string): (r: Option<nat>)
    ensures r.Some? ==> r.value + 1 < |s| && s[r.value] == '>' && s[r.value + 1] == '>'
    ensures forall i :: 0 <= i < |s| - 1 && (r.Some? ==> i > r.value) ==> s[i] != '>' || s[i + 1] != '>'
  {
    if |s| < 2 then None
    else if s[|s| - 2] == '>' && s[|s| - 1] == '>' then Some(|s| - 2)
    else
      assert forall i :: 0 <= i < |s| - 1 ==> s[..|s| - 1][i] == s[i];
      LastPair(s[..|s| - 1])
  }

  // ---------- src/shell/mod.rs ----------

  /** Input redirection in front of an accepted output redirection. */
  function ShellInput(before: string, output: Output): Parsed {
    match LastIndex(before, '<')
    case Some(i) =>
      var name := Trim(before[i + 1..]);
      if name != "" then Parsed(before[..i], Some(name), output) else Parsed(before, None, output)
    case None => Parsed(before, None, output)
  }

  function ShellAppend(line: string): Option<Parsed> {
    match LastPair(line)
    case None => None
    case Some(p) =>
      var file := Trim(line[p + 2..]);
      if file != "" && '|' !in file then Some(ShellInput(line[..p], Append(file))) else None
  }

  function ShellWrite(line: string): Option<Parsed> {
    match LastIndex(line, '>')
    case None => None
    case Some(p) =>
      if p == 0 || line[p - 1] != '>' then
        var file := Trim(line[p + 1..]);
        if file != "" && '|' !in file then Some(ShellInput(line[..p], Write(file))) else None
      else None
  }

  function ShellInputOnly(line: string): Parsed {
    match LastIndex(line, '<')
    case Some(p) =>
      var name := Trim(line[p + 1..]);
      if name != "" && '|' !in name && '>' !in name then Parsed(line[..p], Some(name), Print)
      else Parsed(line, None, Print)
    case None => Parsed(line, None, Print)
  }

  function ParseShell(line: string): Parsed {
    if ShellAppend(line).Some? then ShellAppend(line).value
    else if ShellWrite(line).Some? then ShellWrite(line).value
    else ShellInputOnly(line)
  }

  // ---------- src/gui/widget/terminal.rs ----------

  /** The output redirection and where it starts. */
  function TerminalOutput(line: string): (r: (Output, nat))
    ensures r.1 <= |line|
  {
    match LastPair(line)
    case Some(p) =>
      var file := Trim(line[p + 2..]);
      if file != "" && '|' !in file then (Append(file), p) else (Print, |line|)
    case None =>
      match LastIndex(line, '>')
      case Some(p) =>
        var file := Trim(line[p + 1..]);
        if file != "" && '|' !in file then (Write(file), p) else (Print, |line|)
      case None => (Print, |line|)
  }

  function ParseTerminal(line: string): Parsed {
    var (output, end) := TerminalOutput(line);
    var remaining := line[..end];
    match LastIndex(remaining, '<')
    case Some(p) =>
      var name := Trim(remaining[p + 1..]);
      if name != "" then Parsed(remaining[..p], Some(name), output) else Parsed(remaining, None, output)
    case None => Parsed(remaining, None, output)
  }

  // ---------- trimming ----------

  ghost predicate IsBlank(s: string) {
    forall i :: 0 <= i < |s| ==> IsSpace(s[i])
  }

  lemma {:induction false} TrimStartKeeps(s: string, c: char)
    requires !IsSpace(c)
    ensures c in TrimStart(s) <==> c in s
  {
    if s != "" && IsSpace(s[0]) {
      TrimStartKeeps(s[1..], c);
      assert s == [s[0]] + s[1..];
    }
  }

  lemma {:induction false} TrimEndKeeps(s: string, c: char)
    requires !IsSpace(c)
    ensures c in TrimEnd(s) <==> c in s
  {
    if s != "" && IsSpace(s[|s| - 1]) {
      TrimEndKeeps(s[..|s| - 1], c);
      assert s == s[..|s| - 1] + [s[|s| - 1]];
    }
  }

  /** Trimming removes white space only. */
  lemma {:induction false} TrimKeeps(s: string, c: char)
    requires !IsSpace(c)
    ensures c in Trim(s) <==> c in s
  {
    TrimStartKeeps(s, c);
    TrimEndKeeps(TrimStart(s), c);
  }

  lemma {:induction false} TrimStartBlank(s: string)
    ensures IsBlank(TrimStart(s)) ==> TrimStart(s) == ""
    ensures TrimStart(s) == "" <==> IsBlank(s)
  {
    if s != "" && IsSpace(s[0]) {
      TrimStartBlank(s[1..]);
      assert forall i :: 1 <= i < |s| ==> s[i] == s[1..][i - 1];
      assert IsBlank(s) <==> IsBlank(s[1..]);
    }
  }

  lemma {:induction false} TrimEndBlank(s: string)
    ensures TrimEnd(s) == "" <==> IsBlank(s)
  {
    if s != "" && IsSpace(s[|s| - 1]) {
      TrimEndBlank(s[..|s| - 1]);
      assert IsBlank(s) <==> IsBlank(s[..|s| - 1]);
    }
  }

  lemma {:induction false} TrimBlank(s: string)
    ensures Trim(s) == "" <==> IsBlank(s)
  {
    TrimStartBlank(s);
    TrimEndBlank(TrimStart(s));
  }

  /** White space is taken away in front of and behind what is left, and only there. */
  lemma {:induction false} TrimStartSplits(s: string) returns (a: string)
    ensures s == a + TrimStart(s) && IsBlank(a)
    ensures TrimStart(s) != "" ==> !IsSpace(TrimStart(s)[0])
  {
    if s != "" && IsSpace(s[0]) {
      a := TrimStartSplits(s[1..]);
      a := [s[0]] + a;
    } else {
      a := "";
    }
  }

  lemma {:induction false} TrimEndSplits(s: string) returns (b: string)
    ensures s == TrimEnd(s) + b && IsBlank(b)
    ensures TrimEnd(s) != "" ==> !IsSpace(TrimEnd(s)[|TrimEnd(s)| - 1])
  {
    if s != "" && IsSpace(s[|s| - 1]) {
      b := TrimEndSplits(s[..|s| - 1]);
      b := b + [s[|s| - 1]];
    } else {
      b := "";
    }
  }

  lemma {:induction false} TrimSplits(s: string) returns (a: string, b: string)
    ensures s == a + Trim(s) + b && IsBlank(a) && IsBlank(b)
    ensures Trim(s) != "" ==> !IsSpace(Trim(s)[0]) && !IsSpace(Trim(s)[|Trim(s)| - 1])
  {
    a := TrimStartSplits(s);
    b := TrimEndSplits(TrimStart(s));
    assert Trim(s) != "" ==> Trim(s)[0] == TrimStart(s)[0];
  }

  /** What is found between white space is what `trim` gives. */
  lemma {:induction false} TrimIsUnique(a: string, n: string, b: string)
    requires IsBlank(a) && IsBlank(b) && n != "" && !IsSpace(n[0]) && !IsSpace(n[|n| - 1])
    ensures Trim(a + n + b) == n
  {
    TrimStartDrops(a, n + b);
    assert a + n + b == a + (n + b);
    TrimEndDrops(n, b);
  }

  lemma {:induction false} TrimStartDrops(a: string, rest: string)
    requires IsBlank(a) && rest != "" && !IsSpace(rest[0])
    ensures TrimStart(a + rest) == rest
  {
    if a == "" {
      assert a + rest == rest;
    } else {
      assert (a + rest)[1..] == a[1..] + rest;
      TrimStartDrops(a[1..], rest);
    }
  }

  lemma {:induction false} TrimEndDrops(n: string, b: string)
    requires IsBlank(b) && n != "" && !IsSpace(n[|n| - 1])
    ensures TrimEnd(n + b) == n
    decreases |b|
  {
    if b == "" {
      assert n + b == n;
    } else {
      assert (n + b)[..|n + b| - 1] == n + b[..|b| - 1];
      TrimEndDrops(n, b[..|b| - 1]);
    }
  }

  /** The twenty-five white-space characters of Unicode, in numbers. */
  lemma {:induction false} SpacesInNumbers(c: char)
    ensures IsSpace(c) <==>
      c as int in {0x09, 0x0A, 0x0B, 0x0C, 0x0D, 0x20, 0x85, 0xA0, 0x1680, 0x2000, 0x2001, 0x2002, 0x2003, 0x2004,
                   0x2005, 0x2006, 0x2007, 0x2008, 0x2009, 0x200A, 0x2028, 0x2029, 0x202F, 0x205F, 0x3000}
  {
  }

  // ---------- when the two agree ----------

  /** What follows the operator is usable as a file name. */
  ghost predicate IsFileText(s: string) {
    !IsBlank(s) && '|' !in s
  }

  /** Text behind the last `>>`, or else behind the last `>`. */
  ghost function OutputText(line: string): Option<string> {
    match LastPair(line)
    case Some(p) => Some(line[p + 2..])
    case None => match LastIndex(line, '>')
                 case Some(p) => Some(line[p + 1..])
                 case None => None
  }

  ghost predicate OutputAccepted(line: string) {
    OutputText(line).Some? && IsFileText(OutputText(line).value)
  }

  /** The last `>` stands alone behind an earlier `>>` and is followed by a file name. */
  ghost predicate LateWrite(line: string) {
    var p := LastIndex(line, '>');
    p.Some? && p.value > 0 && line[p.value - 1] != '>' && LastPair(line).Some? && IsFileText(line[p.value + 1..])
  }

  /** Behind the last `<` there is nothing, or a name free of other operators. */
  ghost predicate InputIsPlain(line: string) {
    match LastIndex(line, '<')
    case None => true
    case Some(p) => IsBlank(line[p + 1..]) || ('|' !in line[p + 1..] && '>' !in line[p + 1..])
  }

  lemma {:induction false} FileTextTrims(s: string)
    ensures Trim(s) != "" && '|' !in Trim(s) <==> IsFileText(s)
    ensures Trim(s) == "" <==> IsBlank(s)
    ensures '|' in Trim(s) <==> '|' in s
    ensures '>' in Trim(s) <==> '>' in s
  {
    TrimBlank(s);
    TrimKeeps(s, '|');
    TrimKeeps(s, '>');
  }

  lemma AcceptedAgrees(line: string)
    requires OutputAccepted(line)
    ensures ParseShell(line) == ParseTerminal(line)
  {
    hide Trim, LastIndex, LastPair;
    FileTextTrims(OutputText(line).value);
    if LastPair(line).None? {
      var p := LastIndex(line, '>').value;
      assert p == 0 || line[p - 1] != '>';
    }
  }

  /** The last pair cannot be followed by another `>` directly. */
  lemma PairThenSingle(line: string)
    requires LastPair(line).Some?
    ensures var p, q := LastPair(line).value, LastIndex(line, '>').value;
            LastIndex(line, '>').Some? && q >= p + 1 && (q == p + 1 <==> line[q - 1] == '>')
  {
  }

  lemma RejectedShell(line: string)
    requires !OutputAccepted(line)
    ensures ShellAppend(line).None?
    ensures ShellWrite(line).Some? <==> LateWrite(line)
    ensures ShellWrite(line).Some? ==> ShellWrite(line).value.output.Write?
  {
    hide Trim, LastIndex, LastPair;
    if LastPair(line).Some? {
      FileTextTrims(line[LastPair(line).value + 2..]);
      PairThenSingle(line);
    }
    if LastIndex(line, '>').Some? {
      FileTextTrims(line[LastIndex(line, '>').value + 1..]);
    }
  }

  lemma RejectedTerminal(line: string)
    requires !OutputAccepted(line)
    ensures TerminalOutput(line) == (Print, |line|)
  {
    hide Trim, LastIndex, LastPair;
    if OutputText(line).Some? {
      FileTextTrims(OutputText(line).value);
    }
  }

  /** Both parsers read a line alike exactly when the output redirection is accepted, or when no
      late `>` hides behind a rejected `>>` and the input name is free of operators. */
  lemma {:induction false} ParsersAgreeIff(line: string)
    ensures ParseShell(line) == ParseTerminal(line)
       <==> OutputAccepted(line) || (!LateWrite(line) && InputIsPlain(line))
  {
    if OutputAccepted(line) {
      AcceptedAgrees(line);
    } else {
      RejectedShell(line);
      RejectedTerminal(line);
      assert line[..|line|] == line;
      hide Trim, LastIndex, LastPair, ShellAppend, ShellWrite, TerminalOutput;
      if LastIndex(line, '<').Some? {
        FileTextTrims(line[LastIndex(line, '<').value + 1..]);
      }
    }
  }

  /** The text behind the last `>` is part of the text behind an accepted `>>`. */
  lemma LastTextDecides(line: string)
    requires '|' !in line && LastIndex(line, '>').Some? && !IsBlank(line[LastIndex(line, '>').value + 1..])
    ensures OutputAccepted(line)
  {
    hide LastIndex, LastPair;
    var q := LastIndex(line, '>').value;
    if LastPair(line).Some? {
      PairThenSingle(line);
      var p := LastPair(line).value;
      var i :| 0 <= i < |line[q + 1..]| && !IsSpace(line[q + 1..][i]);
      assert line[p + 2..][q + 1 + i - (p + 2)] == line[q + 1..][i];
    }
  }

  lemma NoOutputNoPair(line: string)
    requires LastIndex(line, '>').None?
    ensures LastPair(line).None? && !LateWrite(line) && !('>' in line)
  {
    hide LastIndex, LastPair;
  }

  /** In particular on every line without a pipe whose text behind the last `>`, if any, is not blank. */
  lemma {:induction false} ParsersAgreeWithoutPipes(line: string)
    requires '|' !in line
    requires match LastIndex(line, '>') case Some(p) => !IsBlank(line[p + 1..]) case None => true
    ensures ParseShell(line) == ParseTerminal(line)
  {
    hide ParseShell, ParseTerminal, LastIndex, LastPair, OutputAccepted, LateWrite, IsBlank;
    ParsersAgreeIff(line);
    if LastIndex(line, '>').Some? {
      LastTextDecides(line);
    } else {
      NoOutputNoPair(line);
    }
  }

  /** They disagree on a pipe behind an output redirection: the shell rejects the input name, the
      terminal takes it, operators and all. */
  lemma {:induction false} ParsersDisagree(line: string)
    requires line == "a<b>c|d"
    ensures ParseShell(line) != ParseTerminal(line)
  {
    ParsersAgreeIff(line);
    hide ParseShell, ParseTerminal, LastIndex, LastPair;
    assert |line| == 7 && line[0] == 'a' && line[1] == '<' && line[2] == 'b' && line[3] == '>' && line[4] == 'c'
        && line[5] == '|' && line[6] == 'd';
    assert LastIndex(line, '<') == Some(1) && LastIndex(line, '>') == Some(3) && LastPair(line) == None;
    assert line[4..][1] == '|' && line[2..][3] == '|' && line[2..][0] == 'b';
  }

  // ---------- reading back what was written ----------

  /** A file name that needs no quoting: it neither begins nor ends with white space, and holds no operator. */
  ghost predicate IsPlainName(n: string) {
    && n != "" && !IsSpace(n[0]) && !IsSpace(n[|n| - 1])
    && '<' !in n && '>' !in n && '|' !in n
  }

  ghost predicate IsPlain(p: Parsed) {
    && '>' !in p.pipeline && (p.input.None? ==> '<' !in p.pipeline)
    && (p.input.Some? ==> IsPlainName(p.input.value))
    && (!p.output.Print? ==> IsPlainName(p.output.file))
  }

  /** White space a user puts around the two names. */
  datatype Padding = Padding(beforeIn: string, afterIn: string, beforeOut: string, afterOut: string)

  ghost predicate IsPadding(w: Padding) {
    IsBlank(w.beforeIn) && IsBlank(w.afterIn) && IsBlank(w.beforeOut) && IsBlank(w.afterOut)
  }

  ghost function InputText(p: Parsed, w: Padding): string
    requires p.input.Some?
  {
    w.beforeIn + p.input.value + w.afterIn
  }

  ghost function FileText(o: Output, w: Padding): string
    requires !o.Print?
  {
    w.beforeOut + o.file + w.afterOut
  }

  ghost function RenderInput(p: Parsed, w: Padding): string {
    p.pipeline + if p.input.Some? then ['<'] + InputText(p, w) else []
  }

  ghost function RenderOutput(o: Output, w: Padding): string {
    match o
    case Print => []
    case Write(_) => ['>'] + FileText(o, w)
    case Append(_) => ['>', '>'] + FileText(o, w)
  }

  /** The command line a user types for this command. */
  ghost function Render(p: Parsed, w: Padding): string {
    RenderInput(p, w) + RenderOutput(p.output, w)
  }

  lemma PaddedName(a: string, n: string, b: string)
    requires IsPlainName(n) && IsBlank(a) && IsBlank(b)
    ensures var s := a + n + b; Trim(s) == n && !IsBlank(s) && '<' !in s && '>' !in s && '|' !in s
  {
    hide Trim;
    TrimIsUnique(a, n, b);
    var s := a + n + b;
    assert s[|a|] == n[0];
    forall i | 0 <= i < |s| ensures s[i] != '<' && s[i] != '>' && s[i] != '|' {
      if i < |a| { assert s[i] == a[i]; } else if i < |a| + |n| { assert s[i] == n[i - |a|]; }
      else { assert s[i] == b[i - |a| - |n|]; }
    }
  }

  lemma LastIndexIs(before: string, c: char, after: string)
    requires c !in after
    ensures LastIndex(before + ([c] + after), c) == Some(|before|)
    ensures (before + ([c] + after))[..|before|] == before && (before + ([c] + after))[|before| + 1..] == after
  {
    hide LastIndex;
    var s := before + ([c] + after);
    assert s[|before|] == c && s[|before| + 1..] == after;
    forall i | |before| < i < |s| ensures s[i] != c {
      assert s[i] == after[i - |before| - 1];
    }
  }

  lemma LastIndexNone(s: string, c: char)
    requires c !in s
    ensures LastIndex(s, c) == None && (c == '>' ==> LastPair(s) == None)
  {
    hide LastIndex, LastPair;
  }

  lemma LastPairIs(before: string, after: string)
    requires '>' !in after
    ensures var s := before + (['>', '>'] + after);
            LastPair(s) == Some(|before|) && s[..|before|] == before && s[|before| + 2..] == after
  {
    hide LastPair;
    var s := before + (['>', '>'] + after);
    assert s[|before|] == '>' && s[|before| + 1] == '>' && s[|before| + 2..] == after;
    forall i | |before| + 2 <= i < |s| ensures s[i] != '>' {
      assert s[i] == after[i - |before| - 2];
    }
  }

  lemma NoPair(before: string, after: string)
    requires '>' !in before && '>' !in after
    ensures LastPair(before + (['>'] + after)) == None
  {
    hide LastPair;
    var s := before + (['>'] + after);
    forall i | 0 <= i < |s| && i != |before| ensures s[i] != '>' {
      assert s[i] == if i < |before| then before[i] else after[i - |before| - 1];
    }
  }

  /** The part in front of the output redirection. */
  lemma InputReadsBack(p: Parsed, w: Padding)
    requires IsPlain(p) && IsPadding(w)
    ensures '>' !in RenderInput(p, w)
    ensures ShellInput(RenderInput(p, w), p.output) == p
    ensures p.output.Print? ==> ShellInputOnly(RenderInput(p, w)) == p
  {
    hide LastIndex, Trim, IsBlank;
    if p.input.Some? {
      PaddedName(w.beforeIn, p.input.value, w.afterIn);
      hide InputText;
      assert InputText(p, w) == w.beforeIn + p.input.value + w.afterIn by { InputTextIs(p, w); }
      LastIndexIs(p.pipeline, '<', InputText(p, w));
    } else {
      assert RenderInput(p, w) == p.pipeline;
      LastIndexNone(p.pipeline, '<');
    }
  }

  lemma InputTextIs(p: Parsed, w: Padding)
    requires p.input.Some?
    ensures InputText(p, w) == w.beforeIn + p.input.value + w.afterIn
  {
  }

  lemma FileTextIs(o: Output, w: Padding)
    requires !o.Print? && IsPlainName(o.file) && IsPadding(w)
    ensures var s := FileText(o, w); Trim(s) == o.file && !IsBlank(s) && '<' !in s && '>' !in s && '|' !in s
  {
    hide Trim, IsBlank;
    PaddedName(w.beforeOut, o.file, w.afterOut);
  }

  lemma ShellTakesWrite(before: string, text: string)
    requires '>' !in before && '>' !in text && '|' !in text && Trim(text) != ""
    ensures ParseShell(before + (['>'] + text)) == ShellInput(before, Write(Trim(text)))
  {
    hide LastIndex, LastPair, Trim, ShellInput, ShellInputOnly;
    var line := before + (['>'] + text);
    NoPair(before, text);
    LastIndexIs(before, '>', text);
    TrimKeeps(text, '|');
    assert |before| > 0 ==> line[|before| - 1] == before[|before| - 1];
  }

  lemma ShellTakesAppend(before: string, text: string)
    requires '>' !in text && '|' !in text && Trim(text) != ""
    ensures ParseShell(before + (['>', '>'] + text)) == ShellInput(before, Append(Trim(text)))
  {
    hide LastIndex, LastPair, Trim, ShellInput, ShellInputOnly, ShellWrite;
    LastPairIs(before, text);
    TrimKeeps(text, '|');
  }

  lemma ShellTakesInput(line: string)
    requires '>' !in line
    ensures ParseShell(line) == ShellInputOnly(line)
  {
    hide ShellInputOnly, LastIndex, LastPair;
    LastIndexNone(line, '>');
  }

  /** The shell takes every such command line, spaced as it may be, apart into the command it was
      written for. */
  lemma {:induction false} ShellReadsBack(p: Parsed, w: Padding)
    requires IsPlain(p) && IsPadding(w)
    ensures ParseShell(Render(p, w)) == p
  {
    hide Trim, ShellInput, ShellInputOnly, RenderInput, FileText, IsBlank, ParseShell;
    InputReadsBack(p, w);
    var before := RenderInput(p, w);
    match p.output {
      case Print =>
        assert Render(p, w) == before;
        ShellTakesInput(before);
      case Write(_) =>
        FileTextIs(p.output, w);
        ShellTakesWrite(before, FileText(p.output, w));
      case Append(_) =>
        FileTextIs(p.output, w);
        ShellTakesAppend(before, FileText(p.output, w));
    }
  }

  /** And so does the terminal. */
  lemma {:induction false} TerminalReadsBack(p: Parsed, w: Padding)
    requires IsPlain(p) && IsPadding(w)
    ensures ParseTerminal(Render(p, w)) == p
  {
    hide LastIndex, LastPair, Trim, ShellInput, ShellInputOnly, RenderInput, ParseShell, ParseTerminal, IsPadding;
    ShellReadsBack(p, w);
    ParsersAgreeIff(Render(p, w));
    RenderIsPlain(p, w);
  }

  lemma WriteIsAccepted(before: string, text: string)
    requires '>' !in before && '>' !in text && IsFileText(text)
    ensures OutputAccepted(before + (['>'] + text))
  {
    hide LastIndex, LastPair, IsFileText;
    NoPair(before, text);
    LastIndexIs(before, '>', text);
  }

  lemma AppendIsAccepted(before: string, text: string)
    requires '>' !in text && IsFileText(text)
    ensures OutputAccepted(before + (['>', '>'] + text))
  {
    hide LastIndex, LastPair, IsFileText;
    LastPairIs(before, text);
  }

  lemma InputIsUsable(p: Parsed, w: Padding)
    requires IsPlain(p) && IsPadding(w)
    ensures var line := RenderInput(p, w); !LateWrite(line) && InputIsPlain(line)
  {
    hide LastIndex, LastPair, IsBlank;
    InputReadsBack(p, w);
    LastIndexNone(RenderInput(p, w), '>');
    if p.input.Some? {
      PaddedName(w.beforeIn, p.input.value, w.afterIn);
      LastIndexIs(p.pipeline, '<', InputText(p, w));
    } else {
      assert RenderInput(p, w) == p.pipeline;
      LastIndexNone(p.pipeline, '<');
    }
  }

  lemma RenderIsPlain(p: Parsed, w: Padding)
    requires IsPlain(p) && IsPadding(w)
    ensures var line := Render(p, w); OutputAccepted(line) || (!LateWrite(line) && InputIsPlain(line))
  {
    hide IsBlank, FileText, RenderInput, OutputAccepted, LateWrite, InputIsPlain;
    InputReadsBack(p, w);
    var before := RenderInput(p, w);
    match p.output {
      case Print =>
        assert Render(p, w) == before;
        InputIsUsable(p, w);
      case Write(_) =>
        FileTextIs(p.output, w);
        WriteIsAccepted(before, FileText(p.output, w));
      case Append(_) =>
        FileTextIs(p.output, w);
        AppendIsAccepted(before, FileText(p.output, w));
    }
  }

  /** A line without a usable redirection is kept whole: every `>` is followed by nothing, or by a name
      with a pipe in it, and there is no input. */
  lemma {:induction false} UnusableIsKept(line: string)
    requires !OutputAccepted(line) && !LateWrite(line) && '<' !in line
    ensures ParseShell(line) == ParseTerminal(line) == Parsed(line, None, Print)
  {
    hide Trim, LastIndex, LastPair;
    RejectedShell(line);
    RejectedTerminal(line);
    LastIndexNone(line, '<');
    assert line[..|line|] == line;
  }

  /** A `<` with nothing behind it stays in the pipeline, with an output redirection or without. */
  lemma {:induction false} BlankInputIsKept(pipeline: string, blank: string, o: Output, w: Padding)
    requires '>' !in pipeline && IsBlank(blank) && IsPadding(w) && (!o.Print? ==> IsPlainName(o.file))
    ensures var before := pipeline + (['<'] + blank);
            ParseShell(before + RenderOutput(o, w)) == Parsed(before, None, o)
  {
    var before := pipeline + (['<'] + blank);
    BlankHasNoOperators(blank);
    hide Trim, IsBlank, FileText, ParseShell, LastIndex;
    LastIndexIs(pipeline, '<', blank);
    TrimBlank(blank);
    match o {
      case Print =>
        assert before + RenderOutput(o, w) == before;
        ShellTakesInput(before);
      case Write(_) =>
        FileTextIs(o, w);
        ShellTakesWrite(before, FileText(o, w));
      case Append(_) =>
        FileTextIs(o, w);
        ShellTakesAppend(before, FileText(o, w));
    }
  }

  lemma BlankHasNoOperators(s: string)
    requires IsBlank(s)
    ensures '<' !in s && '>' !in s && '|' !in s
  {
  }
}
