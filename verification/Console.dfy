/** The VGA text console: a window of 24 rows onto an unbounded log of lines. */
module Console {
  import opened Bytes

  const BUFFER_WIDTH: nat := 80
  const TEXT_HEIGHT: nat := 24
  const NEWLINE: byte := 0x0A
  const BLANK: byte := 0x20

  datatype ScreenChar = ScreenChar(character: byte, color: byte)

  // ---------- the log ----------

  /** All lines ever written since the last clearing, the current one last. */
  type Log = seq<seq<byte>>

  ghost predicate IsLog(log: Log) {
    |log| >= 1 && forall k :: 0 <= k < |log| ==> |log[k]| <= 80
  }

  ghost function Current(log: Log): seq<byte>
    requires |log| >= 1
  {
    log[|log| - 1]
  }

  ghost function WithCurrent(log: Log, line: seq<byte>): Log
    requires |log| >= 1
  {
    log[|log| - 1 := line]
  }

  /** A line is broken only when a byte arrives that no longer fits. */
  ghost function LogByte(log: Log, b: byte): (r: Log)
    requires IsLog(log)
    ensures IsLog(r)
  {
    if b == NEWLINE then log + [[]]
    else if |Current(log)| >= 80 then log + [[b]]
    else WithCurrent(log, Current(log) + [b])
  }

  ghost function LogDelete(log: Log): (r: Log)
    requires IsLog(log)
    ensures IsLog(r)
  {
    if Current(log) == [] then log else WithCurrent(log, Current(log)[..|Current(log)| - 1])
  }

  /** `write_string` shows what it cannot print as a block. */
  function Shown(b: byte): byte {
    if 0x20 <= b <= 0x7E || b == NEWLINE then b else 0xFE
  }

  ghost function LogString(log: Log, s: seq<byte>): (r: Log)
    requires IsLog(log)
    ensures IsLog(r)
  {
    if s == [] then log else LogByte(LogString(log, s[..|s| - 1]), Shown(s[|s| - 1]))
  }

  datatype Edit = Put(b: byte) | Delete

  ghost function LogEdits(steps: seq<Edit>): (r: Log)
    ensures IsLog(r)
  {
    if steps == [] then [[]]
    else
      var log, last := LogEdits(steps[..|steps| - 1]), steps[|steps| - 1];
      if last.Put? then LogByte(log, last.b) else LogDelete(log)
  }

  /** The character the window shows: row 23 is the current line, blanks fill the rest. */
  ghost function Visible(log: Log, row: nat, col: nat): byte {
    var k := |log| - 24 + row;
    if 0 <= k < |log| && col < |log[k]| then log[k][col] else BLANK
  }

  lemma WindowMoves(log: Log)
    requires IsLog(log)
    ensures IsLog(log + [[]]) && Current(log + [[]]) == []
    ensures forall r: nat, c: nat :: r < 24 && c < 80 ==>
      Visible(log + [[]], r, c) == if r < 23 then Visible(log, r + 1, c) else BLANK
  {
  }

  // ---------- the screen ----------

  class Writer {
    var column: nat
    var color: byte
    const chars: array2<ScreenChar>
    ghost var log: Log

    ghost predicate Valid()
      reads this, chars
    {
      && chars.Length0 == 25 && chars.Length1 == 80
      && IsLog(log) && column == |Current(log)|
      && forall r: nat, c: nat :: r < 24 && c < 80 ==> chars[r, c].character == Visible(log, r, c)
    }

    ghost predicate HasSize()
    {
      chars.Length0 == 25 && chars.Length1 == 80
    }

    twostate predicate StatusRowUntouched()
      requires HasSize()
      reads chars
    {
      forall c: nat :: c < 80 ==> chars[24, c] == old(chars[24, c])
    }

    /** Every row shows the one that was below it, and row 23 is blank from column `from` on. */
    twostate predicate ScrolledBehind(from: nat)
      requires HasSize()
      reads this, chars
    {
      forall r: nat, c: nat :: r < 24 && c < 80 ==>
        if r < 23 then chars[r, c] == old(chars[r + 1, c]) else c < from || chars[r, c] == ScreenChar(0x20, color)
    }

    twostate predicate Scrolled()
      requires HasSize()
      reads this, chars
    {
      ScrolledBehind(0)
    }

    /** On the text rows only this cell of row 23 has changed. */
    twostate predicate OneCell(col: nat, to: ScreenChar)
      requires HasSize()
      reads chars
    {
      forall r: nat, c: nat :: r < 24 && c < 80 ==>
        chars[r, c] == if r == 23 && c == col then to else old(chars[r, c])
    }

    method ClearRow(row: nat)
      requires HasSize() && row < 25
      modifies chars
      ensures forall r: nat, c: nat :: r < 25 && c < 80 ==>
        chars[r, c] == if r == row then ScreenChar(0x20, color) else old(chars[r, c])
    {
      for col := 0 to BUFFER_WIDTH
        invariant forall r: nat, c: nat :: r < 25 && c < 80 ==>
          chars[r, c] == if r == row && c < col then ScreenChar(BLANK, color) else old(chars[r, c])
      {
        chars[row, col] := ScreenChar(BLANK, color);
      }
    }

    /** Every text row moves up by one, the last one becomes blank. */
    method NewLine()
      requires Valid()
      modifies this`column, this`log, chars
      ensures Valid() && log == old(log) + [[]] && StatusRowUntouched()
      ensures column == 0 && Scrolled()
    {
      for row := 1 to TEXT_HEIGHT
        invariant forall r: nat, c: nat :: r < 25 && c < 80 ==>
          chars[r, c] == if r < row - 1 then old(chars[r + 1, c]) else old(chars[r, c])
        modifies chars
      {
        MoveUp(row);
      }
      ClearRow(TEXT_HEIGHT - 1);
      column := 0;
      WindowMoves(log);
      hide Visible;
      log := log + [[]];
    }

    method MoveUp(row: nat)
      requires HasSize() && 1 <= row < 24
      modifies chars
      ensures forall r: nat, c: nat :: r < 25 && c < 80 ==>
        chars[r, c] == if r == row - 1 then old(chars[row, c]) else old(chars[r, c])
    {
      for col := 0 to BUFFER_WIDTH
        invariant forall r: nat, c: nat :: r < 25 && c < 80 ==>
          chars[r, c] == if r == row - 1 && c < col then old(chars[row, c]) else old(chars[r, c])
      {
        chars[row - 1, col] := chars[row, col];
      }
    }

    method WriteByte(b: byte)
      requires Valid()
      modifies this`column, this`log, chars
      ensures Valid() && log == LogByte(old(log), b) && StatusRowUntouched()
      ensures b == 0x0A ==> column == 0 && Scrolled()
      ensures b != 0x0A && old(column) < 80 ==>
        column == old(column) + 1 && OneCell(old(column), ScreenChar(b, color))
      ensures b != 0x0A && old(column) == 80 ==>
        column == 1 && chars[23, 0] == ScreenChar(b, color) && ScrolledBehind(1)
    {
      if b == NEWLINE {
        NewLine();
        return;
      }
      if column >= BUFFER_WIDTH {
        NewLine();
        assert [] + [b] == [b] && WithCurrent(log, [b]) == old(log) + [[b]];
      }
      chars[TEXT_HEIGHT - 1, column] := ScreenChar(b, color);
      column := column + 1;
      log := WithCurrent(log, Current(log) + [b]);
      assert log == LogByte(old(log), b);
    }

    method WriteString(s: seq<byte>)
      requires Valid()
      modifies this`column, this`log, chars
      ensures Valid() && log == LogString(old(log), s) && StatusRowUntouched()
    {
      for i := 0 to |s|
        invariant Valid() && log == LogString(old(log), s[..i]) && StatusRowUntouched()
      {
        assert s[..i + 1][..i] == s[..i];
        if 0x20 <= s[i] <= 0x7E || s[i] == NEWLINE {
          WriteByte(s[i]);
        } else {
          WriteByte(0xFE);
        }
      }
      assert s[..|s|] == s;
    }

    method ClearScreen()
      requires HasSize()
      modifies this`column, this`log, chars
      ensures Valid() && log == [[]] && StatusRowUntouched()
      ensures column == 0 && forall r: nat, c: nat :: r < 24 && c < 80 ==> chars[r, c] == ScreenChar(0x20, color)
    {
      for row := 0 to TEXT_HEIGHT
        invariant forall r: nat, c: nat :: r < 25 && c < 80 ==>
          chars[r, c] == if r < row then ScreenChar(BLANK, color) else old(chars[r, c])
      {
        ClearRow(row);
      }
      column := 0;
      log := [[]];
    }

    method DeleteLastChar()
      requires Valid()
      modifies this`column, this`log, chars
      ensures Valid() && log == LogDelete(old(log)) && StatusRowUntouched()
      ensures if old(column) == 0 then unchanged(this, chars)
              else column == old(column) - 1 && OneCell(column, ScreenChar(0x20, color))
    {
      if column > 0 {
        column := column - 1;
        chars[TEXT_HEIGHT - 1, column] := ScreenChar(BLANK, color);
        log := LogDelete(log);
      }
    }

    /** Whatever is written and deleted after clearing the screen, it shows the last 24 lines of the
        log (`Valid`), and the status row stays. */
    method Run(steps: seq<Edit>)
      requires HasSize()
      modifies this`column, this`log, chars
      ensures Valid() && log == LogEdits(steps) && StatusRowUntouched()
    {
      ClearScreen();
      for i := 0 to |steps|
        invariant Valid() && log == LogEdits(steps[..i]) && StatusRowUntouched()
      {
        assert steps[..i + 1][..i] == steps[..i];
        match steps[i] {
          case Put(b) => WriteByte(b);
          case Delete => DeleteLastChar();
        }
      }
      assert steps[..|steps|] == steps;
    }

    method SetColor(foreground: byte, background: byte)
      requires Valid() && foreground < 16 && background < 16
      modifies this`color
      ensures Valid() && log == old(log) && color == background * 16 + foreground
    {
      color := background * 16 + foreground;
    }
  }

  // ---------- what the log means ----------

  /** A line break ends the current line: what follows is written as on an empty log below it. */
  lemma {:induction false} BreakSplits(log: Log, s: seq<byte>, t: seq<byte>)
    requires IsLog(log)
    ensures IsLog([[]]) && LogString(log, s + [0x0A] + t) == LogString(log, s) + LogString([[]], t)
    decreases |t|
  {
    var text := s + [0x0A] + t;
    if t == [] {
      assert text[..|text| - 1] == s;
    } else {
      var shorter := t[..|t| - 1];
      assert text[..|text| - 1] == s + [0x0A] + shorter;
      BreakSplits(log, s, shorter);
      ByteBelow(LogString(log, s), LogString([[]], shorter), Shown(t[|t| - 1]));
    }
  }

  /** A byte sees the current line only. */
  lemma ByteBelow(above: Log, log: Log, b: byte)
    requires IsLog(log) && IsLog(above + log)
    ensures LogByte(above + log, b) == above + LogByte(log, b)
  {
    var whole := above + log;
    assert Current(whole) == Current(log);
    if b == NEWLINE {
      assert whole + [[]] == above + (log + [[]]);
    } else if |Current(log)| >= 80 {
      assert whole + [[b]] == above + (log + [[b]]);
    } else {
      assert WithCurrent(whole, Current(whole) + [b]) == above + WithCurrent(log, Current(log) + [b]);
    }
  }

  /** Printable ASCII and line breaks are shown as they are, everything else as a block. */
  lemma {:induction false} ShownInNumbers(b: byte)
    ensures Shown(b) == b <==> 0x20 <= b <= 0x7E || b == 0x0A || b == 0xFE
    ensures Shown(b) != b ==> Shown(b) == 0xFE
  {
  }

  /** Deleting takes the last byte of the current line, and never one of an earlier line. */
  lemma {:induction false} DeleteKeepsLines(log: Log)
    requires IsLog(log)
    ensures |LogDelete(log)| == |log| && forall k :: 0 <= k < |log| - 1 ==> LogDelete(log)[k] == log[k]
    ensures var line := Current(log);
            Current(LogDelete(log)) == if line == [] then [] else line[..|line| - 1]
  {
  }

  ghost function Concat(lines: Log): seq<byte> {
    if lines == [] then [] else Concat(lines[..|lines| - 1]) + lines[|lines| - 1]
  }

  /** Text without a line break continues the current line and wraps at column 80: read as one
      line again, nothing is lost, every line but the last is full, and no line is empty. */
  lemma {:induction false} TextWraps(log: Log, s: seq<byte>)
    requires IsLog(log) && forall i :: 0 <= i < |s| ==> Shown(s[i]) != NEWLINE
    ensures var n, after := |log| - 1, LogString(log, s);
            && |after| >= |log| && after[..n] == log[..n]
            && Concat(after[n..]) == Current(log) + seq(|s|, i requires 0 <= i < |s| => Shown(s[i]))
            && (forall k :: n <= k < |after| - 1 ==> |after[k]| == 80)
            && (|after| > |log| ==> Current(after) != [])
    decreases |s|
  {
    var n, after := |log| - 1, LogString(log, s);
    if s == [] {
      assert after[n..] == [Current(log)];
      assert Concat([Current(log)]) == Concat([]) + Current(log);
    } else {
      var m := |s| - 1;
      var before, b := LogString(log, s[..m]), Shown(s[m]);
      TextWraps(log, s[..m]);
      var shown := seq(|s|, i requires 0 <= i < |s| => Shown(s[i]));
      assert shown == seq(m, i requires 0 <= i < m => Shown(s[..m][i])) + [b];
      assert after == LogByte(before, b);
      ByteExtendsText(before, b, n);
    }
  }

  lemma {:induction false} ByteExtendsText(log: Log, b: byte, n: nat)
    requires IsLog(log) && b != NEWLINE && n < |log|
    ensures n <= |LogByte(log, b)| && Concat(LogByte(log, b)[n..]) == Concat(log[n..]) + [b]
  {
    var after, last := LogByte(log, b), |log| - 1;
    assert log[n..][..last - n] == log[n..last];
    if |Current(log)| >= 80 {
      assert after[n..][..|after[n..]| - 1] == log[n..];
    } else {
      assert after[n..][..last - n] == log[n..last];
    }
  }

  /** Deleting takes back the byte just written exactly when it did not have to start a new line. */
  lemma {:induction false} DeleteUndoesIff(log: Log, b: byte)
    requires IsLog(log) && b != NEWLINE
    ensures LogDelete(LogByte(log, b)) == log <==> |Current(log)| < 80
  {
    var after := LogByte(log, b);
    if |Current(log)| < 80 {
      assert Current(after)[..|Current(log)|] == Current(log);
      assert LogDelete(after) == log;
    }
  }
}
