/** Indentation arithmetic: filling with tabs and spaces, the Tab key, shifting lines (src/mooedit/mooindenter.cpp). */
module Indenters {

  datatype Option<T> = None | Some(value: T)

  predicate IsBlank(c: char) {
    c == ' ' || c == '\t'
  }

  ghost predicate Blank(s: string) {
    forall i :: 0 <= i < |s| ==> IsBlank(s[i])
  }

  /** The next tab stop after a column. */
  function NextStop(col: nat, tabWidth: nat): (r: nat)
    requires 0 < tabWidth
    ensures col < r <= col + tabWidth
  {
    col + (tabWidth - col % tabWidth)
  }

  /** The column behind a text that begins at a column. */
  ghost function Column(s: string, tabWidth: nat, start: nat): nat
    requires 0 < tabWidth
    decreases |s|
  {
    if s == [] then start else
      Column(s[1..], tabWidth, if s[0] == '\t' then NextStop(start, tabWidth) else start + 1)
  }

  lemma {:induction false} ColumnJoin(a: string, b: string, tabWidth: nat, start: nat)
    requires 0 < tabWidth
    ensures Column(a + b, tabWidth, start) == Column(b, tabWidth, Column(a, tabWidth, start))
    decreases |a|
  {
    if a == [] {
      assert a + b == b;
    } else {
      assert (a + b)[1..] == a[1..] + b;
      ColumnJoin(a[1..], b, tabWidth, if a[0] == '\t' then NextStop(start, tabWidth) else start + 1);
    }
  }

  lemma ColumnNone(s: string, tabWidth: nat)
    requires 0 < tabWidth
    ensures Column(s[..0], tabWidth, 0) == 0
  {
  }

  lemma StopAt(col: nat, tabWidth: nat)
    requires 0 < tabWidth
    ensures NextStop(col, tabWidth) == col + (tabWidth - col % tabWidth)
  {
  }

  lemma BlankNext(s: string, k: nat, i: nat)
    requires k <= i < |s| && Blank(s[k..i]) && IsBlank(s[i])
    ensures Blank(s[k..i + 1])
  {
    assert s[k..i + 1] == s[k..i] + [s[i]];
  }

  lemma ColumnNext(s: string, i: nat, tabWidth: nat)
    requires 0 < tabWidth && i < |s|
    ensures Column(s[..i + 1], tabWidth, 0) ==
      var col := Column(s[..i], tabWidth, 0); if s[i] == '\t' then NextStop(col, tabWidth) else col + 1
  {
    assert s[..i + 1] == s[..i] + [s[i]];
    ColumnJoin(s[..i], [s[i]], tabWidth, 0);
  }

  function Repeat(c: char, n: nat): (s: string)
    ensures |s| == n && forall i :: 0 <= i < n ==> s[i] == c
  {
    seq(n, _ => c)
  }

  // ----- division

  lemma DivIs(a: nat, w: nat, q: nat, r: nat)
    requires a == q * w + r && r < w
    ensures a / w == q && a % w == r
  {
    assert a == w * (a / w) + a % w;
    if a / w < q {
      assert w * (a / w + 1) <= w * q by {
        MulMonotone(a / w + 1, q, w);
      }
    } else if a / w > q {
      assert w * (q + 1) <= w * (a / w) by {
        MulMonotone(q + 1, a / w, w);
      }
    }
  }

  lemma MulMonotone(a: nat, b: nat, w: nat)
    requires a <= b
    ensures w * a <= w * b
  {
  }

  /** A step to the next stop crosses exactly one tab stop. */
  lemma StopIs(col: nat, w: nat)
    requires 0 < w
    ensures NextStop(col, w) == (col / w + 1) * w
    ensures NextStop(col, w) / w == col / w + 1 && NextStop(col, w) % w == 0
  {
    assert col == w * (col / w) + col % w;
    DivIs(NextStop(col, w), w, col / w + 1, 0);
  }

  /** A step by one column crosses at most one tab stop. */
  lemma OneStep(col: nat, w: nat)
    requires 0 < w
    ensures if col % w + 1 == w then (col + 1) / w == col / w + 1 && (col + 1) % w == 0
            else (col + 1) / w == col / w && (col + 1) % w == col % w + 1
  {
    assert col == w * (col / w) + col % w;
    if col % w + 1 == w {
      DivIs(col + 1, w, col / w + 1, 0);
    } else {
      DivIs(col + 1, w, col / w, col % w + 1);
    }
  }

  lemma DivGrows(a: nat, b: nat, w: nat)
    requires 0 < w && a <= b
    ensures a / w <= b / w
    ensures a / w == b / w ==> b - a == b % w - a % w
  {
    assert a == w * (a / w) + a % w && b == w * (b / w) + b % w;
    if b / w < a / w {
      MulMonotone(b / w + 1, a / w, w);
    }
  }

  // ----- filling

  /** How many tab stops lie between two columns, the second one included. */
  ghost function Stops(start: nat, end: nat, tabWidth: nat): (r: nat)
    requires 0 < tabWidth && start <= end
  {
    DivGrows(start, end, tabWidth);
    end / tabWidth - start / tabWidth
  }

  /** The shortest filling: a tab for every stop on the way and spaces behind the last one. */
  ghost function Filling(useTabs: bool, tabWidth: nat, len: nat, start: nat): string
    requires 0 < tabWidth
  {
    var tabs := if useTabs then Stops(start, start + len, tabWidth) else 0;
    if tabs == 0 then Repeat(' ', len) else Repeat('\t', tabs) + Repeat(' ', (start + len) % tabWidth)
  }

  /** Every character but a tab is one column wide. */
  lemma {:induction false} PlainColumn(s: string, tabWidth: nat, start: nat)
    requires 0 < tabWidth && '\t' !in s
    ensures Column(s, tabWidth, start) == start + |s|
    decreases |s|
  {
    if s != [] {
      PlainColumn(s[1..], tabWidth, start + 1);
    }
  }

  lemma SpacesColumn(n: nat, tabWidth: nat, start: nat)
    requires 0 < tabWidth
    ensures Column(Repeat(' ', n), tabWidth, start) == start + n
  {
    hide Column;
    PlainColumn(Repeat(' ', n), tabWidth, start);
  }

  lemma {:induction false} TabsColumn(n: nat, tabWidth: nat, start: nat)
    requires 0 < tabWidth && 0 < n
    ensures Column(Repeat('\t', n), tabWidth, start) == (start / tabWidth + n) * tabWidth
    decreases n
  {
    assert Repeat('\t', n)[1..] == Repeat('\t', n - 1);
    StopIs(start, tabWidth);
    if n > 1 {
      TabsColumn(n - 1, tabWidth, NextStop(start, tabWidth));
    }
  }

  /** The filling leads from start to start + len. */
  lemma FillingColumn(useTabs: bool, tabWidth: nat, len: nat, start: nat)
    requires 0 < tabWidth
    ensures Column(Filling(useTabs, tabWidth, len, start), tabWidth, start) == start + len
    ensures !useTabs ==> '\t' !in Filling(useTabs, tabWidth, len, start)
    ensures Blank(Filling(useTabs, tabWidth, len, start)) && (len > 0 ==> Filling(useTabs, tabWidth, len, start) != [])
  {
    hide Column;
    var end := start + len;
    var tabs := if useTabs then Stops(start, end, tabWidth) else 0;
    if tabs == 0 {
      SpacesColumn(len, tabWidth, start);
    } else {
      var q, spaces := end / tabWidth, end % tabWidth;
      ColumnJoin(Repeat('\t', tabs), Repeat(' ', spaces), tabWidth, start);
      TabsColumn(tabs, tabWidth, start);
      assert start / tabWidth + tabs == q;
      SpacesColumn(spaces, tabWidth, q * tabWidth);
      DivParts(end, tabWidth);
    }
  }

  lemma DivParts(a: nat, w: nat)
    requires 0 < w
    ensures a == (a / w) * w + a % w
  {
  }

  /** The least number of tabs and spaces from one column to another. */
  ghost function Least(start: nat, end: nat, tabWidth: nat): nat
    requires 0 < tabWidth && start <= end
  {
    var stops := Stops(start, end, tabWidth);
    if stops == 0 then end - start else stops + end % tabWidth
  }

  /** One more character saves at most one. */
  lemma LeastStep(start: nat, mid: nat, end: nat, tabWidth: nat)
    requires 0 < tabWidth && start < mid <= end && (mid == start + 1 || mid == NextStop(start, tabWidth))
    ensures Least(start, end, tabWidth) <= 1 + Least(mid, end, tabWidth)
  {
    DivGrows(start, end, tabWidth);
    DivGrows(mid, end, tabWidth);
    if mid == start + 1 {
      OneStep(start, tabWidth);
    } else {
      StopIs(start, tabWidth);
    }
  }

  lemma {:induction false} ColumnGrows(s: string, tabWidth: nat, start: nat)
    requires 0 < tabWidth
    ensures start + |s| <= Column(s, tabWidth, start)
    decreases |s|
  {
    if s != [] {
      ColumnGrows(s[1..], tabWidth, if s[0] == '\t' then NextStop(start, tabWidth) else start + 1);
    }
  }

  lemma {:induction false} NoneShorter(s: string, tabWidth: nat, start: nat)
    requires 0 < tabWidth && Blank(s)
    ensures start <= Column(s, tabWidth, start) && Least(start, Column(s, tabWidth, start), tabWidth) <= |s|
    decreases |s|
  {
    ColumnGrows(s, tabWidth, start);
    if s != [] {
      var mid := if s[0] == '\t' then NextStop(start, tabWidth) else start + 1;
      NoneShorter(s[1..], tabWidth, mid);
      LeastStep(start, mid, Column(s, tabWidth, start), tabWidth);
    }
  }

  /** With tabs, no string of tabs and spaces does the same with fewer characters. */
  lemma FillingShortest(tabWidth: nat, len: nat, start: nat, s: string)
    requires 0 < tabWidth && Blank(s) && Column(s, tabWidth, start) == start + len
    ensures |Filling(true, tabWidth, len, start)| <= |s|
  {
    NoneShorter(s, tabWidth, start);
  }

  // ----- the text and where its lines begin

  /** Lines without their ends, and the place of the cursor. */
  class Buffer {
    var lines: seq<string>
    var cursorLine: nat
    var cursor: nat

    constructor (lines: seq<string>)
      requires lines != []
      ensures Valid() && this.lines == lines
    {
      this.lines, cursorLine, cursor := lines, 0, 0;
    }

    ghost predicate Valid()
      reads this
    {
      cursorLine < |lines| && cursor <= |lines[cursorLine]|
    }

    /** Takes the first characters off a line; a cursor among them comes to the start of the line. */
    method DeleteHead(i: nat, end: nat)
      requires Valid() && i < |lines| && end <= |lines[i]|
      modifies this
      ensures Valid() && lines == old(lines)[i := old(lines[i])[end..]] && cursorLine == old(cursorLine)
      ensures cursor == if cursorLine != i then old(cursor) else if old(cursor) < end then 0 else old(cursor) - end
    {
      if cursorLine == i {
        cursor := if cursor < end then 0 else cursor - end;
      }
      lines := lines[i := lines[i][end..]];
    }

    /** Puts text in front of a line; a cursor at its start stays behind the text. */
    method InsertHead(i: nat, text: string)
      requires Valid() && i < |lines|
      modifies this
      ensures Valid() && lines == old(lines)[i := text + old(lines[i])] && cursorLine == old(cursorLine)
      ensures cursor == if cursorLine == i then old(cursor) + |text| else old(cursor)
    {
      if cursorLine == i {
        cursor := cursor + |text|;
      }
      lines := lines[i := text + lines[i]];
    }
  }

  /** What is behind the cursor stays behind it, but for the first k characters of the line. */
  ghost predicate Follows(was: string, from: nat, now: string, to: nat, k: nat) {
    && k <= |was| && from <= |was| && to <= |now|
    && now[to..] == if from < k then was[k..] else was[from..]
  }

  /** Where the cursor is after its line has got another head. */
  lemma HeadFollows(was: string, from: nat, k: nat, text: string)
    requires k <= |was| && from <= |was|
    ensures Follows(was, from, text + was[k..], |text| + if from < k then 0 else from - k, k)
  {
    if k <= from {
      assert was[k..][from - k..] == was[from..];
    }
  }

  /** The leading whitespace of a line. */
  ghost function Lead(line: string): (k: nat)
    ensures k <= |line| && Blank(line[..k]) && (k == |line| || !IsBlank(line[k]))
  {
    if line == [] || !IsBlank(line[0]) then 0 else
      var k := Lead(line[1..]);
      assert line[..k + 1] == [line[0]] + line[1..][..k];
      k + 1
  }

  lemma LeadIs(line: string, k: nat)
    requires k <= |line| && Blank(line[..k]) && (k == |line| || !IsBlank(line[k]))
    ensures Lead(line) == k
  {
    var m := Lead(line);
    assert forall i :: 0 <= i < m ==> line[i] == line[..m][i];
    assert forall i :: 0 <= i < k ==> line[i] == line[..k][i];
  }

  /** How far a line is indented. */
  ghost function Width(line: string, tabWidth: nat): nat
    requires 0 < tabWidth
  {
    Column(line[..Lead(line)], tabWidth, 0)
  }

  ghost predicate BlankLine(line: string) {
    Lead(line) == |line|
  }

  lemma BlankLineIs(line: string)
    ensures BlankLine(line) <==> forall j :: 0 <= j < |line| ==> line[j] == ' ' || line[j] == '\t'
  {
    var k := Lead(line);
    assert forall j :: 0 <= j < k ==> line[j] == line[..k][j];
  }

  /** A line indented to a given width. */
  ghost function Indented(line: string, width: nat, useTabs: bool, tabWidth: nat): string
    requires 0 < tabWidth
  {
    Filling(useTabs, tabWidth, width, 0) + line[Lead(line)..]
  }

  lemma IndentedWidth(line: string, width: nat, useTabs: bool, tabWidth: nat)
    requires 0 < tabWidth
    ensures var t := Indented(line, width, useTabs, tabWidth);
      Lead(t) == |Filling(useTabs, tabWidth, width, 0)| && Width(t, tabWidth) == width &&
        t[Lead(t)..] == line[Lead(line)..]
  {
    FillingColumn(useTabs, tabWidth, width, 0);
    var f := Filling(useTabs, tabWidth, width, 0);
    var t := Indented(line, width, useTabs, tabWidth);
    assert t[..|f|] == f;
    LeadIs(t, |f|);
  }

  // ----- what shifting back takes away

  lemma CountNext(s: string, i: nat, tabWidth: nat)
    ensures Count([], tabWidth) == 0
    ensures i < |s| ==> Count(s[..i + 1], tabWidth) == Count(s[..i], tabWidth) + if s[i] == '\t' then tabWidth else 1
  {
    if i < |s| {
      assert s[..i + 1][..i] == s[..i];
    }
  }

  /** How many of the leading characters shifting back takes: until they count enough, a tab always counting
      a full tab width. */
  ghost function Eaten(line: string, indent: nat, tabWidth: nat, done: nat): (k: nat)
    ensures k <= Lead(line)
  {
    if line == [] || !IsBlank(line[0]) || indent <= done then 0
    else 1 + Eaten(line[1..], indent, tabWidth, done + if line[0] == '\t' then tabWidth else 1)
  }

  /** Shifting back takes the fewest characters that count a step, or all leading whitespace. */
  lemma {:induction false} EatenIs(line: string, indent: nat, tabWidth: nat, done: nat)
    ensures var k := Eaten(line, indent, tabWidth, done);
      && (k == Lead(line) || indent <= done + Count(line[..k], tabWidth))
      && forall j :: 0 <= j < k ==> done + Count(line[..j], tabWidth) < indent
  {
    hide Count;
    CountNext(line, 0, tabWidth);
    if line != [] && IsBlank(line[0]) && done < indent {
      var rest, now := line[1..], done + if line[0] == '\t' then tabWidth else 1;
      EatenIs(rest, indent, tabWidth, now);
      forall j | 0 < j <= |line| ensures Count(line[..j], tabWidth) == now - done + Count(rest[..j - 1], tabWidth) {
        assert line[..j] == [line[0]] + rest[..j - 1];
        CountFirst(line[0], rest[..j - 1], tabWidth);
      }
    }
  }

  lemma {:induction false} CountFirst(c: char, s: string, tabWidth: nat)
    ensures Count([c] + s, tabWidth) == Count(s, tabWidth) + if c == '\t' then tabWidth else 1
  {
    var t := [c] + s;
    if s == [] {
      CountNext(t, 0, tabWidth);
      assert t[..1] == t && t[..0] == [];
    } else {
      assert t[..|t| - 1] == [c] + s[..|s| - 1];
      CountFirst(c, s[..|s| - 1], tabWidth);
    }
  }

  lemma EatenNext(line: string, k: nat, indent: nat, tabWidth: nat, done: nat)
    requires k <= |line|
    ensures Eaten(line[k..], indent, tabWidth, done) ==
      if k == |line| || !IsBlank(line[k]) || indent <= done then 0
      else 1 + Eaten(line[k + 1..], indent, tabWidth, done + if line[k] == '\t' then tabWidth else 1)
  {
    if k < |line| {
      assert line[k..][0] == line[k] && line[k..][1..] == line[k + 1..];
    }
  }

  ghost function Count(s: string, tabWidth: nat): nat {
    if s == [] then 0 else Count(s[..|s| - 1], tabWidth) + if s[|s| - 1] == '\t' then tabWidth else 1
  }

  /** The line after shifting back. */
  ghost function Back(line: string, indent: nat, useTabs: bool, tabWidth: nat): string
    requires 0 < tabWidth
  {
    var k := Eaten(line, indent, tabWidth, 0);
    var deleted := Count(line[..k], tabWidth);
    (if deleted > indent then Filling(useTabs, tabWidth, deleted - indent, 0) else []) + line[k..]
  }

  class Indenter {
    var useTabs: bool
    var tabWidth: nat
    var indent: nat

    constructor ()
      ensures Valid() && useTabs && tabWidth == 8 && indent == 8
    {
      useTabs, tabWidth, indent := true, 8, 8;
    }

    ghost predicate Valid()
      reads this
    {
      0 < tabWidth && 0 < indent
    }

    /** A string that leads from column start to column start + len; nothing when there is nothing to fill. */
    method MakeSpace(len: nat, start: nat) returns (r: Option<string>)
      requires Valid()
      ensures r == if len == 0 then None else Some(Filling(useTabs, tabWidth, len, start))
    {
      if len == 0 {
        return None;
      }
      if !useTabs {
        return Some(Repeat(' ', len));
      }
      var delta := start % tabWidth;
      var tabs, spaces;
      if delta == 0 {
        PartsAligned(tabWidth, len, start);
        tabs, spaces := len / tabWidth, len % tabWidth;
      } else if len < tabWidth - delta {
        PartsShort(tabWidth, len, start);
        tabs, spaces := 0, len;
      } else if len == tabWidth - delta {
        PartsAcross(tabWidth, 0, start);
        tabs, spaces := 1, 0;
      } else {
        var rest := len - (tabWidth - delta);
        PartsAcross(tabWidth, rest, start);
        tabs, spaces := rest / tabWidth + 1, rest % tabWidth;
      }
      r := Some(Repeat('\t', tabs) + Repeat(' ', spaces));
      assert Repeat('\t', 0) + Repeat(' ', len) == Repeat(' ', len);
    }

    /** The width of the leading whitespace and where it ends; is there anything behind it? */
    method LineOffset(line: string) returns (text: bool, offset: nat, at: nat)
      requires Valid()
      ensures text == !BlankLine(line) && at == Lead(line) && offset == Width(line, tabWidth)
    {
      offset, at, text := 0, 0, false;
      while at < |line|
        invariant at <= |line| && Blank(line[..at]) && offset == Column(line[..at], tabWidth, 0) && !text
      {
        ColumnNext(line, at, tabWidth);
        if line[at] == ' ' {
          offset := offset + 1;
        } else if line[at] == '\t' {
          var add := tabWidth - offset % tabWidth;
          offset := offset + add;
        } else {
          text := true;
          break;
        }
        assert line[..at + 1] == line[..at] + [line[at]];
        at := at + 1;
      }
      LeadIs(line, at);
    }

    /** The column at a place in a line and the run of whitespace just before it. */
    method VisualOffset(line: string, at: nat) returns (offset: nat, whiteSpace: nat, start: nat)
      requires Valid() && at <= |line|
      ensures offset == Column(line[..at], tabWidth, 0)
      ensures start <= at && Blank(line[start..at]) && (start == 0 || !IsBlank(line[start - 1]))
      ensures offset == Column(line[..start], tabWidth, 0) + whiteSpace
    {
      hide Column, NextStop;
      offset, whiteSpace, start := 0, 0, 0;
      ColumnNone(line, tabWidth);
      var i := 0;
      while i < at
        invariant i <= at && offset == Column(line[..i], tabWidth, 0)
        invariant start <= i && Blank(line[start..i]) && (start == 0 || !IsBlank(line[start - 1]))
        invariant offset == Column(line[..start], tabWidth, 0) + whiteSpace && (whiteSpace == 0 <==> start == i)
      {
        ColumnNext(line, i, tabWidth);
        StopAt(offset, tabWidth);
        var c := line[i];
        if c == ' ' || c == '\t' {
          BlankNext(line, start, i);
        } else {
          whiteSpace, start := 0, i + 1;
        }
        if c == '\t' {
          var add := tabWidth - offset % tabWidth;
          offset, whiteSpace := offset + add, whiteSpace + add;
        } else if c == ' ' {
          offset, whiteSpace := offset + 1, whiteSpace + 1;
        } else {
          offset := offset + 1;
        }
        i := i + 1;
      }
    }

    /** The Tab key: only the whitespace just before the cursor changes, and the cursor comes to the least
        multiple of the indent width behind its column. */
    method Tab(buffer: Buffer) returns (ghost start: nat)
      requires Valid() && buffer.Valid()
      modifies buffer
      ensures buffer.Valid() && buffer.cursorLine == old(buffer.cursorLine)
      ensures buffer.lines == old(buffer.lines)[buffer.cursorLine := buffer.lines[buffer.cursorLine]]
      ensures Tabbed(old(buffer.lines[buffer.cursorLine]), old(buffer.cursor), buffer.lines[buffer.cursorLine],
        buffer.cursor, start, indent, tabWidth)
    {
      hide Column, Tabbed, Filling, Blank;
      var line, insert := buffer.lines[buffer.cursorLine], buffer.cursor;
      var offset, whiteSpace, at := VisualOffset(line, insert);
      start := at;
      var newOffset := offset + (indent - offset % indent);
      var text := MakeSpace(newOffset - offset + whiteSpace, offset - whiteSpace);
      TabResult(line, insert, at, indent, useTabs, tabWidth, text.value, whiteSpace);
      buffer.lines := buffer.lines[buffer.cursorLine := line[..at] + text.value + line[insert..]];
      buffer.cursor := at + |text.value|;
    }

    /** Indents a line that is not blank one step further; the rest of it stays. */
    method ShiftLineForward(buffer: Buffer, i: nat)
      requires Valid() && buffer.Valid() && i < |buffer.lines|
      modifies buffer
      ensures buffer.Valid() && buffer.cursorLine == old(buffer.cursorLine)
      ensures buffer.lines == old(buffer.lines)[i := ForwardOf(old(buffer.lines)[i])]
      ensures OneStepOn(old(buffer.lines)[i], buffer.lines[i])
      ensures CursorMoved(old(buffer.lines[buffer.cursorLine]), old(buffer.cursor),
        buffer.lines[buffer.cursorLine], buffer.cursor, 1, i == buffer.cursorLine)
    {
      hide Filling, Follows, Column, Lead, OneStepOn;
      ghost var was, cursor := buffer.lines[buffer.cursorLine], buffer.cursor;
      var line := buffer.lines[i];
      ForwardStep(line);
      var text, offset, at := LineOffset(line);
      if !text {
        return;
      }
      WidthNone(line, tabWidth);
      if offset != 0 {
        buffer.DeleteHead(i, at);
      }
      var space := MakeSpace(offset + indent, 0);
      if space.Some? {
        buffer.InsertHead(i, space.value);
        HeadFollows(line, if i == buffer.cursorLine then cursor else 0, at, space.value);
      }
    }

    /** Where shifting leaves the cursor: behind the whitespace that was exchanged, with the same text behind it. */
    ghost predicate CursorMoved(was: string, from: nat, now: string, to: nat, direction: int, shifted: bool)
      requires Valid()
      reads this
    {
      if !shifted || (direction > 0 && BlankLine(was)) then to == from
      else Follows(was, from, now, to, if direction > 0 then Lead(was) else Eaten(was, indent, tabWidth, 0))
    }

    /** A line of blanks stays; another one is indented by one step more, with the same text behind that. */
    ghost predicate OneStepOn(was: string, now: string)
      requires Valid()
      reads this
    {
      if forall j :: 0 <= j < |was| ==> was[j] == ' ' || was[j] == '\t' then now == was
      else Width(now, tabWidth) == Width(was, tabWidth) + indent && now[Lead(now)..] == was[Lead(was)..]
    }

    lemma ForwardStep(line: string)
      requires Valid()
      ensures OneStepOn(line, ForwardOf(line))
    {
      hide Filling, Column;
      assert line[..|line|] == line;
      BlankLineIs(line);
      if !BlankLine(line) {
        IndentedWidth(line, Width(line, tabWidth) + indent, useTabs, tabWidth);
      }
    }

    ghost function ForwardOf(line: string): string
      requires Valid()
      reads this
    {
      if BlankLine(line) then line else Indented(line, Width(line, tabWidth) + indent, useTabs, tabWidth)
    }

    ghost function BackwardOf(line: string): string
      requires Valid()
      reads this
    {
      Back(line, indent, useTabs, tabWidth)
    }

    /** Where the whitespace to take off a line ends, and how much it counts. */
    method EatSpace(line: string) returns (end: nat, deleted: nat)
      requires Valid()
      ensures end == Eaten(line, indent, tabWidth, 0) && deleted == Count(line[..end], tabWidth)
    {
      hide Lead, Count, Eaten;
      end, deleted := 0, 0;
      assert line[0..] == line;
      CountNext([], 0, tabWidth);
      while true
        invariant end <= |line| && deleted == Count(line[..end], tabWidth) && deleted < indent
        invariant Eaten(line, indent, tabWidth, 0) == end + Eaten(line[end..], indent, tabWidth, deleted)
        decreases |line| - end
      {
        EatenNext(line, end, indent, tabWidth, deleted);
        if end == |line| {
          break;
        }
        var c := line[end];
        CountNext(line, end, tabWidth);
        if c == ' ' {
          end := end + 1;
          deleted := deleted + 1;
        } else if c == '\t' {
          end := end + 1;
          deleted := deleted + tabWidth;
        } else {
          break;
        }
        if deleted >= indent {
          EatenNext(line, end, indent, tabWidth, deleted);
          break;
        }
      }
    }

    /** Takes one step of indentation off a line. */
    method ShiftLineBackward(buffer: Buffer, i: nat)
      requires Valid() && buffer.Valid() && i < |buffer.lines|
      modifies buffer
      ensures buffer.Valid() && buffer.cursorLine == old(buffer.cursorLine)
      ensures buffer.lines == old(buffer.lines)[i := BackwardOf(old(buffer.lines)[i])]
      ensures CursorMoved(old(buffer.lines[buffer.cursorLine]), old(buffer.cursor),
        buffer.lines[buffer.cursorLine], buffer.cursor, -1, i == buffer.cursorLine)
    {
      hide Eaten, Count, Filling, Follows, Lead, Column;
      ghost var cursor := buffer.cursor;
      var line := buffer.lines[i];
      var end, deleted := EatSpace(line);
      buffer.DeleteHead(i, end);
      ghost var from := if i == buffer.cursorLine then cursor else 0;
      if deleted > indent {
        var text := MakeSpace(deleted - indent, 0);
        buffer.InsertHead(i, text.value);
        HeadFollows(line, from, end, text.value);
      } else {
        HeadFollows(line, from, end, []);
        assert [] + line[end..] == line[end..];
      }
    }

    method ShiftLines(buffer: Buffer, firstLine: nat, lastLine: nat, direction: int)
      requires Valid() && buffer.Valid() && lastLine < |buffer.lines|
      modifies buffer
      ensures buffer.Valid() && buffer.cursorLine == old(buffer.cursorLine)
      ensures |buffer.lines| == |old(buffer.lines)|
      ensures forall i :: 0 <= i < |buffer.lines| ==>
        buffer.lines[i] ==
          if i < firstLine || lastLine < i then old(buffer.lines)[i]
          else if direction > 0 then ForwardOf(old(buffer.lines)[i]) else BackwardOf(old(buffer.lines)[i])
      ensures direction > 0 ==> forall i :: firstLine <= i <= lastLine ==>
        OneStepOn(old(buffer.lines)[i], buffer.lines[i])
      ensures CursorMoved(old(buffer.lines[buffer.cursorLine]), old(buffer.cursor),
        buffer.lines[buffer.cursorLine], buffer.cursor, direction, firstLine <= buffer.cursorLine <= lastLine)
    {
      hide Follows, Back, Indented, Lead, BlankLine, OneStepOn;
      forall i | 0 <= i < |buffer.lines| ensures OneStepOn(buffer.lines[i], ForwardOf(buffer.lines[i])) {
        ForwardStep(buffer.lines[i]);
      }
      ghost var was, from := buffer.lines[buffer.cursorLine], buffer.cursor;
      var k := firstLine;
      while k <= lastLine
        invariant buffer.Valid() && buffer.cursorLine == old(buffer.cursorLine)
        invariant |buffer.lines| == |old(buffer.lines)|
        invariant forall i :: 0 <= i < |buffer.lines| ==>
          buffer.lines[i] ==
            if i < firstLine || k <= i || lastLine < i then old(buffer.lines)[i]
            else if direction > 0 then ForwardOf(old(buffer.lines)[i]) else BackwardOf(old(buffer.lines)[i])
        invariant firstLine <= k && (k == firstLine || k <= lastLine + 1)
        invariant CursorMoved(was, from, buffer.lines[buffer.cursorLine], buffer.cursor, direction,
          firstLine <= buffer.cursorLine < k)
      {
        if direction > 0 {
          ShiftLineForward(buffer, k);
        } else {
          ShiftLineBackward(buffer, k);
        }
        k := k + 1;
      }
    }

    /** Shifting a line with text forward adds one step; shifting it back restores its indentation exactly when tabs
        are off, or a step is a whole number of tabs, or the shifted line has no more tabs than a step takes. */
    lemma ForwardAndBack(line: string)
      requires Valid() && !BlankLine(line)
      ensures var there := ForwardOf(line);
        && Width(there, tabWidth) == Width(line, tabWidth) + indent && there[Lead(there)..] == line[Lead(line)..]
      ensures Restored(line, BackwardOf(ForwardOf(line)))
    {
      hide Back, Indented, Width, Lead;
      ThereAndBack(line, indent, useTabs, tabWidth);
    }

    /** The text is the same, and the indentation exactly when it can be. */
    ghost predicate Restored(line: string, back: string)
      requires Valid()
      reads this
    {
      && back[Lead(back)..] == line[Lead(line)..]
      && var off := Width(line, tabWidth);
        Width(back, tabWidth) == off <==>
          !useTabs || indent % tabWidth == 0 || (off + indent) / tabWidth <= (indent + tabWidth - 1) / tabWidth
    }

    /** The same for a range of lines. */
    method ShiftThereAndBack(buffer: Buffer, firstLine: nat, lastLine: nat)
      requires Valid() && buffer.Valid() && lastLine < |buffer.lines|
      modifies buffer
      ensures buffer.Valid() && |buffer.lines| == |old(buffer.lines)|
      ensures forall i :: 0 <= i < |buffer.lines| && !BlankLine(old(buffer.lines)[i]) ==>
        if i < firstLine || lastLine < i then buffer.lines[i] == old(buffer.lines)[i]
        else Restored(old(buffer.lines)[i], buffer.lines[i])
    {
      hide *;
      ghost var was := buffer.lines;
      forall i | 0 <= i < |was| && !BlankLine(was[i]) ensures Restored(was[i], BackwardOf(ForwardOf(was[i]))) {
        ForwardAndBack(was[i]);
      }
      ShiftLines(buffer, firstLine, lastLine, 1);
      ShiftLines(buffer, firstLine, lastLine, -1);
    }

    /** With tabs of width 8 and steps of 4, a line indented by 12 comes back indented by something else. */
    lemma TwelveLost(line: string)
      requires useTabs && tabWidth == 8 && indent == 4 && !BlankLine(line) && Width(line, 8) == 12
      ensures Width(BackwardOf(ForwardOf(line)), 8) != 12
    {
      ForwardAndBack(line);
    }

    /** Where Backspace should stop: the indentation of the nearest line above with text that begins no further
        right. */
    method PrevStop(buffer: Buffer, at: nat, offset: nat, sameLine: bool) returns (stop: nat)
      requires Valid() && at < |buffer.lines|
      ensures stop == StopAbove(if sameLine then buffer.lines[..at + 1] else buffer.lines[..at], offset, tabWidth)
    {
      hide StopAbove, BlankLine, Width, Column, Lead;
      var i := at;
      if !sameLine {
        if i == 0 {
          StopAboveIs(buffer.lines[..0], offset, tabWidth, -1);
          return 0;
        }
        i := i - 1;
      }
      ghost var above := if sameLine then buffer.lines[..at + 1] else buffer.lines[..at];
      while true
        invariant 0 <= i < |above| && above == buffer.lines[..|above|]
        invariant forall j :: i < j < |above| ==> !StopsAt(above[j], offset, tabWidth)
        decreases i
      {
        var text, indent, k := LineOffset(buffer.lines[i]);
        if text && indent <= offset {
          StopAboveIs(above, offset, tabWidth, i);
          return indent;
        } else if i == 0 {
          StopAboveIs(above, offset, tabWidth, -1);
          return 0;
        }
        i := i - 1;
      }
    }
  }

  /** Only whitespace just before the cursor has changed, and the cursor is at the least multiple of the indent
      width behind its old column. */
  ghost predicate Tabbed(was: string, from: nat, now: string, to: nat, start: nat, indent: nat, tabWidth: nat)
    requires 0 < tabWidth && 0 < indent && from <= |was| && to <= |now|
  {
    && start <= from && start <= to && (start == 0 || !IsBlank(was[start - 1]))
    && was[..start] == now[..start] && Blank(was[start..from]) && Blank(now[start..to]) && was[from..] == now[to..]
    && var before, after := Column(was[..from], tabWidth, 0), Column(now[..to], tabWidth, 0);
      after % indent == 0 && before < after && forall c: nat :: before < c && c % indent == 0 ==> after <= c
  }

  lemma Replaced<T>(s: seq<T>, start: nat, from: nat, x: seq<T>)
    requires start <= from <= |s|
    ensures var t, to := s[..start] + x + s[from..], start + |x|;
      t[..start] == s[..start] && t[..to] == s[..start] + x && t[start..to] == x && t[to..] == s[from..]
  {
  }

  lemma TabResult(was: string, from: nat, start: nat, indent: nat, useTabs: bool, tabWidth: nat, text: string,
    whiteSpace: nat)
    requires 0 < tabWidth && 0 < indent && start <= from <= |was| && Blank(was[start..from]) &&
      (start == 0 || !IsBlank(was[start - 1]))
    requires Column(was[..from], tabWidth, 0) == Column(was[..start], tabWidth, 0) + whiteSpace
    requires var col := Column(was[..from], tabWidth, 0);
      text == Filling(useTabs, tabWidth, NextStop(col, indent) - col + whiteSpace, col - whiteSpace)
    ensures Tabbed(was, from, was[..start] + text + was[from..], start + |text|, start, indent, tabWidth)
  {
    hide Column, NextStop, Filling, Blank;
    var col := Column(was[..from], tabWidth, 0);
    var now, to := was[..start] + text + was[from..], start + |text|;
    Replaced(was, start, from, text);
    FillingColumn(useTabs, tabWidth, NextStop(col, indent) - col + whiteSpace, col - whiteSpace);
    ColumnJoin(was[..start], text, tabWidth, 0);
    StopIs(col, indent);
    forall c: nat | col < c && c % indent == 0 ensures NextStop(col, indent) <= c {
      NextMultiple(col, c, indent);
    }
  }

  ghost predicate StopsAt(line: string, offset: nat, tabWidth: nat)
    requires 0 < tabWidth
  {
    !BlankLine(line) && Width(line, tabWidth) <= offset
  }

  ghost function StopAbove(lines: seq<string>, offset: nat, tabWidth: nat): nat
    requires 0 < tabWidth
  {
    if lines == [] then 0
    else if StopsAt(lines[|lines| - 1], offset, tabWidth) then Width(lines[|lines| - 1], tabWidth)
    else StopAbove(lines[..|lines| - 1], offset, tabWidth)
  }

  /** The stop is the width of the last line that qualifies, or 0. */
  lemma {:induction false} StopAboveIs(lines: seq<string>, offset: nat, tabWidth: nat, i: int)
    requires 0 < tabWidth && -1 <= i < |lines|
    requires i >= 0 ==> !BlankLine(lines[i]) && Width(lines[i], tabWidth) <= offset
    requires forall j :: i < j < |lines| ==> BlankLine(lines[j]) || offset < Width(lines[j], tabWidth)
    ensures StopAbove(lines, offset, tabWidth) == if i < 0 then 0 else Width(lines[i], tabWidth)
  {
    if lines != [] && i < |lines| - 1 {
      StopAboveIs(lines[..|lines| - 1], offset, tabWidth, i);
    }
  }

  lemma NextMultiple(a: nat, c: nat, w: nat)
    requires 0 < w && a < c && c % w == 0
    ensures NextStop(a, w) <= c
  {
    StopIs(a, w);
    DivParts(c, w);
    DivGrows(a, c, w);
    if c / w > a / w {
      MulMonotone(a / w + 1, c / w, w);
    }
  }

  lemma WidthNone(line: string, tabWidth: nat)
    requires 0 < tabWidth
    ensures Width(line, tabWidth) == 0 <==> Lead(line) == 0
  {
    ColumnGrows(line[..Lead(line)], tabWidth, 0);
  }

  lemma PartsAligned(w: nat, len: nat, start: nat)
    requires 0 < w && start % w == 0
    ensures Stops(start, start + len, w) == len / w && (start + len) % w == len % w
    ensures len / w == 0 ==> len % w == len
  {
    DivParts(start, w);
    DivParts(len, w);
    Factor(start / w, len / w, w);
    DivIs(start + len, w, start / w + len / w, len % w);
  }

  lemma PartsShort(w: nat, len: nat, start: nat)
    requires 0 < w && start % w + len < w
    ensures Stops(start, start + len, w) == 0
  {
    DivParts(start, w);
    DivIs(start + len, w, start / w, start % w + len);
  }

  lemma PartsAcross(w: nat, rest: nat, start: nat)
    requires 0 < w
    ensures var end := start + (w - start % w) + rest; Stops(start, end, w) == rest / w + 1 && end % w == rest % w
  {
    StopIs(start, w);
    var stop := NextStop(start, w);
    DivParts(rest, w);
    Factor(stop / w, rest / w, w);
    DivParts(stop, w);
    DivIs(stop + rest, w, stop / w + rest / w, rest % w);
  }

  lemma Factor(a: nat, b: nat, w: nat)
    ensures (a + b) * w == a * w + b * w
  {
  }

  // ----- forward and back

  /** n tabs, each counting a full tab width. */
  ghost function Wide(n: nat, tabWidth: nat): nat {
    if n == 0 then 0 else Wide(n - 1, tabWidth) + tabWidth
  }

  /** How many tabs it takes to count n. */
  ghost function TabsFor(n: int, tabWidth: nat): nat
    requires 0 < tabWidth
    decreases n
  {
    if n <= 0 then 0 else 1 + TabsFor(n - tabWidth, tabWidth)
  }

  lemma {:induction false} TabsForBounds(n: nat, q: nat, tabWidth: nat)
    requires 0 < tabWidth
    ensures n <= Wide(TabsFor(n, tabWidth), tabWidth) && (0 < n ==> Wide(TabsFor(n, tabWidth), tabWidth) < n + tabWidth)
    ensures q < TabsFor(n, tabWidth) <==> Wide(q, tabWidth) < n
    decreases n
  {
    if n > tabWidth {
      TabsForBounds(n - tabWidth, if q > 0 then q - 1 else 0, tabWidth);
    } else if n > 0 {
      assert TabsFor(n, tabWidth) == 1;
      if q > 0 {
        WideGrows(q, tabWidth);
      }
    }
  }

  lemma {:induction false} WideGrows(n: nat, tabWidth: nat)
    ensures Wide(n, tabWidth) == n * tabWidth
    ensures 0 < n ==> tabWidth <= Wide(n, tabWidth)
  {
    if n > 0 {
      WideGrows(n - 1, tabWidth);
      assert (n - 1) * tabWidth + tabWidth == n * tabWidth;
    }
  }

  lemma {:induction false} WideAdd(m: nat, n: nat, tabWidth: nat)
    ensures Wide(m + n, tabWidth) == Wide(m, tabWidth) + Wide(n, tabWidth)
  {
    if n > 0 {
      WideAdd(m, n - 1, tabWidth);
    }
  }

  lemma EatenFirst(c: char, rest: string, indent: nat, tabWidth: nat, done: nat)
    requires IsBlank(c)
    ensures Eaten([c] + rest, indent, tabWidth, done) ==
      if indent <= done then 0 else 1 + Eaten(rest, indent, tabWidth, done + if c == '\t' then tabWidth else 1)
  {
    hide Eaten;
    var line := [c] + rest;
    assert line[0..] == line && line[1..] == rest;
    EatenNext(line, 0, indent, tabWidth, done);
  }

  lemma RepeatFirst(c: char, n: nat, tail: string)
    requires 0 < n
    ensures Repeat(c, n) + tail == [c] + (Repeat(c, n - 1) + tail)
  {
  }

  lemma TabsForStep(n: int, tabWidth: nat)
    requires 0 < tabWidth
    ensures TabsFor(n, tabWidth) == if n <= 0 then 0 else 1 + TabsFor(n - tabWidth, tabWidth)
  {
  }

  lemma WideStep(n: nat, tabWidth: nat)
    ensures Wide(n, tabWidth) == if n == 0 then 0 else Wide(n - 1, tabWidth) + tabWidth
  {
  }

  lemma EatenAll(line: string, indent: nat, tabWidth: nat, done: nat)
    requires indent <= done
    ensures Eaten(line, indent, tabWidth, done) == 0
  {
  }

  lemma {:induction false} EatTabs(n: nat, tail: string, indent: nat, tabWidth: nat, done: nat)
    requires 0 < tabWidth
    ensures var c := TabsFor(indent - done, tabWidth);
      Eaten(Repeat('\t', n) + tail, indent, tabWidth, done) ==
        if c <= n then c else n + Eaten(tail, indent, tabWidth, done + Wide(n, tabWidth))
    decreases n
  {
    hide Lead, Eaten, TabsFor, Wide, Repeat;
    TabsForStep(indent - done, tabWidth);
    WideStep(n, tabWidth);
    if indent <= done {
      EatenAll(Repeat('\t', n) + tail, indent, tabWidth, done);
    } else if n == 0 {
      RepeatNone('\t', tail);
    } else {
      RepeatFirst('\t', n, tail);
      EatenFirst('\t', Repeat('\t', n - 1) + tail, indent, tabWidth, done);
      EatTabs(n - 1, tail, indent, tabWidth, done + tabWidth);
    }
  }

  lemma RepeatNone(c: char, tail: string)
    ensures Repeat(c, 0) + tail == tail
  {
  }

  lemma {:induction false} EatSpaces(n: nat, tail: string, indent: nat, tabWidth: nat, done: nat)
    requires done <= indent <= done + n
    ensures Eaten(Repeat(' ', n) + tail, indent, tabWidth, done) == indent - done
    decreases n
  {
    hide Lead, Eaten, Repeat;
    if indent == done {
      EatenAll(Repeat(' ', n) + tail, indent, tabWidth, done);
    } else {
      RepeatFirst(' ', n, tail);
      EatenFirst(' ', Repeat(' ', n - 1) + tail, indent, tabWidth, done);
      EatSpaces(n - 1, tail, indent, tabWidth, done + 1);
    }
  }

  lemma {:induction false} CountTabs(n: nat, tabWidth: nat)
    ensures Count(Repeat('\t', n), tabWidth) == Wide(n, tabWidth)
  {
    if n > 0 {
      assert Repeat('\t', n)[..n - 1] == Repeat('\t', n - 1);
      CountTabs(n - 1, tabWidth);
    }
  }

  lemma {:induction false} CountSpaces(s: string, n: nat, tabWidth: nat)
    ensures Count(s + Repeat(' ', n), tabWidth) == Count(s, tabWidth) + n
  {
    if n > 0 {
      assert (s + Repeat(' ', n))[..|s| + n - 1] == s + Repeat(' ', n - 1);
      CountSpaces(s, n - 1, tabWidth);
    } else {
      assert s + Repeat(' ', 0) == s;
    }
  }

  /** What comes back when k characters that count `deleted` go. */
  lemma BackIs(line: string, indent: nat, useTabs: bool, tabWidth: nat, head: string, rest: string)
    requires 0 < tabWidth && line == head + rest && Eaten(line, indent, tabWidth, 0) == |head|
    ensures var d := Count(head, tabWidth);
      Back(line, indent, useTabs, tabWidth) ==
        (if d > indent then Filling(useTabs, tabWidth, d - indent, 0) else []) + rest
  {
    hide Eaten, Count, Filling;
    assert line[..|head|] == head && line[|head|..] == rest;
  }

  /** A line of spaces loses exactly one step. */
  lemma BackFromSpaces(off: nat, rest: string, indent: nat, useTabs: bool, tabWidth: nat)
    requires 0 < tabWidth
    ensures Back(Repeat(' ', off + indent) + rest, indent, useTabs, tabWidth) == Repeat(' ', off) + rest
  {
    hide Eaten, Back, Count;
    var line, tail := Repeat(' ', off + indent) + rest, Repeat(' ', off) + rest;
    EatSpaces(off + indent, rest, indent, tabWidth, 0);
    CountSpaces([], indent, tabWidth);
    CountNext([], 0, tabWidth);
    assert [] + Repeat(' ', indent) == Repeat(' ', indent);
    assert line == Repeat(' ', indent) + tail;
    BackIs(line, indent, useTabs, tabWidth, Repeat(' ', indent), tail);
    assert [] + tail == tail;
  }

  /** If the tabs do not count a whole step, spaces make up for exactly what is missing. */
  lemma BackFromFewTabs(q: nat, r: nat, rest: string, indent: nat, tabWidth: nat)
    requires 0 < tabWidth && q < TabsFor(indent, tabWidth) && indent <= Wide(q, tabWidth) + r
    ensures Wide(q, tabWidth) < indent
    ensures Back(Repeat('\t', q) + (Repeat(' ', r) + rest), indent, true, tabWidth) ==
      Repeat(' ', Wide(q, tabWidth) + r - indent) + rest
  {
    hide Eaten, Back, Count, Wide, TabsFor;
    TabsForBounds(indent, q, tabWidth);
    var m := indent - Wide(q, tabWidth);
    var line, head, tail := Repeat('\t', q) + (Repeat(' ', r) + rest), Repeat('\t', q) + Repeat(' ', m),
      Repeat(' ', r - m) + rest;
    EatTabs(q, Repeat(' ', r) + rest, indent, tabWidth, 0);
    EatSpaces(r, rest, indent, tabWidth, Wide(q, tabWidth));
    CountTabs(q, tabWidth);
    CountSpaces(Repeat('\t', q), m, tabWidth);
    assert line == head + tail;
    BackIs(line, indent, true, tabWidth, head, tail);
    assert [] + tail == tail;
  }

  /** If they do, whole tabs go, and the excess comes back as spaces in front of what is left. */
  lemma BackFromTabs(q: nat, r: nat, rest: string, indent: nat, tabWidth: nat)
    requires 0 < tabWidth && TabsFor(indent, tabWidth) <= q
    ensures indent <= Wide(TabsFor(indent, tabWidth), tabWidth)
    ensures var c := TabsFor(indent, tabWidth);
      Back(Repeat('\t', q) + (Repeat(' ', r) + rest), indent, true, tabWidth) ==
        Repeat(' ', Wide(c, tabWidth) - indent) + (Repeat('\t', q - c) + (Repeat(' ', r) + rest))
  {
    hide Eaten, Back, Count, Wide, TabsFor, Filling;
    var c := TabsFor(indent, tabWidth);
    TabsForBounds(indent, 0, tabWidth);
    var line, tail := Repeat('\t', q) + (Repeat(' ', r) + rest), Repeat('\t', q - c) + (Repeat(' ', r) + rest);
    EatTabs(q, Repeat(' ', r) + rest, indent, tabWidth, 0);
    CountTabs(c, tabWidth);
    assert line == Repeat('\t', c) + tail;
    BackIs(line, indent, true, tabWidth, Repeat('\t', c), tail);
    var e := Wide(c, tabWidth) - indent;
    if e > 0 {
      WideNone(indent, tabWidth);
      FillingShort(e, tabWidth);
    }
  }

  lemma WideNone(indent: nat, tabWidth: nat)
    requires 0 < tabWidth
    ensures indent == 0 ==> Wide(TabsFor(indent, tabWidth), tabWidth) == 0
  {
  }

  lemma FillingShort(e: nat, tabWidth: nat)
    requires e < tabWidth
    ensures Filling(true, tabWidth, e, 0) == Repeat(' ', e)
  {
    DivIs(e, tabWidth, 0, e);
  }

  lemma HeadWidth(head: string, rest: string, tabWidth: nat)
    requires 0 < tabWidth && Blank(head) && rest != [] && !IsBlank(rest[0])
    ensures Width(head + rest, tabWidth) == Column(head, tabWidth, 0) && (head + rest)[Lead(head + rest)..] == rest
  {
    hide Column, Lead;
    var line := head + rest;
    assert line[..|head|] == head && line[|head|] == rest[0];
    LeadIs(line, |head|);
  }

  /** Spaces in front of tabs are lost, unless they are a full tab width; spaces behind them count. */
  lemma MixedColumn(e: nat, n: nat, r: nat, tabWidth: nat)
    requires 0 < tabWidth && e < tabWidth
    ensures Column(Repeat(' ', e) + Repeat('\t', n) + Repeat(' ', r), tabWidth, 0) ==
      (if n == 0 then e else Wide(n, tabWidth)) + r
  {
    hide Column, Wide;
    ColumnJoin(Repeat(' ', e) + Repeat('\t', n), Repeat(' ', r), tabWidth, 0);
    ColumnJoin(Repeat(' ', e), Repeat('\t', n), tabWidth, 0);
    SpacesColumn(e, tabWidth, 0);
    if n == 0 {
      assert Repeat(' ', e) + Repeat('\t', 0) == Repeat(' ', e);
      SpacesColumn(r, tabWidth, e);
    } else {
      TabsColumn(n, tabWidth, e);
      DivIs(e, tabWidth, 0, e);
      WideGrows(n, tabWidth);
      SpacesColumn(r, tabWidth, Wide(n, tabWidth));
    }
  }

  /** One step of indentation is a whole number of tabs. */
  lemma WholeTabs(indent: nat, tabWidth: nat)
    requires 0 < tabWidth
    ensures Wide(TabsFor(indent, tabWidth), tabWidth) == indent <==> indent % tabWidth == 0
  {
    hide Wide, TabsFor;
    var c, k := TabsFor(indent, tabWidth), indent / tabWidth;
    WideGrows(c, tabWidth);
    WideGrows(k, tabWidth);
    DivParts(indent, tabWidth);
    TabsForBounds(indent, k, tabWidth);
    if indent % tabWidth == 0 {
      MulMonotone(c, k, tabWidth);
    } else if Wide(c, tabWidth) == indent {
      DivIs(indent, tabWidth, c, 0);
    }
  }

  lemma FillingParts(tabWidth: nat, len: nat)
    requires 0 < tabWidth
    ensures Filling(true, tabWidth, len, 0) == Repeat('\t', len / tabWidth) + Repeat(' ', len % tabWidth)
    ensures Wide(len / tabWidth, tabWidth) + len % tabWidth == len
  {
    hide Wide;
    DivIs(0, tabWidth, 0, 0);
    WideGrows(len / tabWidth, tabWidth);
    DivParts(len, tabWidth);
    if len / tabWidth == 0 {
      assert Repeat('\t', 0) + Repeat(' ', len) == Repeat(' ', len);
    }
  }

  /** Without tabs, shifting back undoes shifting forward. */
  lemma BackWithoutTabs(off: nat, rest: string, indent: nat, tabWidth: nat)
    requires 0 < tabWidth && rest != [] && !IsBlank(rest[0])
    ensures var back := Back(Filling(false, tabWidth, off + indent, 0) + rest, indent, false, tabWidth);
      Width(back, tabWidth) == off && back[Lead(back)..] == rest
  {
    hide Back, Lead, Column, Filling, Width, Repeat;
    FillingSpaces(tabWidth, off + indent);
    BackFromSpaces(off, rest, indent, false, tabWidth);
    SpacesInFront(off, rest, tabWidth);
  }

  lemma SpacesInFront(off: nat, rest: string, tabWidth: nat)
    requires 0 < tabWidth && rest != [] && !IsBlank(rest[0])
    ensures var t := Repeat(' ', off) + rest; Width(t, tabWidth) == off && t[Lead(t)..] == rest
  {
    hide Lead, Column, Width;
    HeadWidth(Repeat(' ', off), rest, tabWidth);
    SpacesColumn(off, tabWidth, 0);
  }

  /** With fewer tabs than a step takes, too. */
  lemma BackWithFewTabs(off: nat, rest: string, indent: nat, tabWidth: nat)
    requires 0 < tabWidth && rest != [] && !IsBlank(rest[0]) && (off + indent) / tabWidth < TabsFor(indent, tabWidth)
    ensures var back := Back(Filling(true, tabWidth, off + indent, 0) + rest, indent, true, tabWidth);
      Width(back, tabWidth) == off && back[Lead(back)..] == rest
  {
    hide Back, Lead, Column, Filling, Width, Wide, TabsFor, Repeat;
    var q, r := (off + indent) / tabWidth, (off + indent) % tabWidth;
    FillingParts(tabWidth, off + indent);
    Grouped(Repeat('\t', q), Repeat(' ', r), rest);
    BackFromFewTabs(q, r, rest, indent, tabWidth);
    SpacesInFront(off, rest, tabWidth);
  }

  lemma Grouped(a: string, b: string, c: string)
    ensures a + b + c == a + (b + c)
  {
  }

  lemma Regrouped(a: string, b: string, c: string, d: string)
    ensures a + (b + (c + d)) == a + b + c + d
  {
  }

  /** With as many or more, the spaces that make up for the excess count only if no tab comes behind them. */
  lemma BackWithTabs(off: nat, rest: string, indent: nat, tabWidth: nat)
    requires 0 < tabWidth && rest != [] && !IsBlank(rest[0]) && TabsFor(indent, tabWidth) <= (off + indent) / tabWidth
    ensures var back := Back(Filling(true, tabWidth, off + indent, 0) + rest, indent, true, tabWidth);
      && back[Lead(back)..] == rest
      && (Width(back, tabWidth) == off <==>
        indent % tabWidth == 0 || (off + indent) / tabWidth == TabsFor(indent, tabWidth))
  {
    hide Back, Lead, Column, Filling, Width, Wide, TabsFor, Repeat;
    var q, r, c := (off + indent) / tabWidth, (off + indent) % tabWidth, TabsFor(indent, tabWidth);
    FillingParts(tabWidth, off + indent);
    Grouped(Repeat('\t', q), Repeat(' ', r), rest);
    BackFromTabs(q, r, rest, indent, tabWidth);
    var e := Wide(c, tabWidth) - indent;
    WideNone(indent, tabWidth);
    TabsForBounds(indent, 0, tabWidth);
    Regrouped(Repeat(' ', e), Repeat('\t', q - c), Repeat(' ', r), rest);
    MixedBlank(e, q - c, r);
    HeadWidth(Repeat(' ', e) + Repeat('\t', q - c) + Repeat(' ', r), rest, tabWidth);
    MixedColumn(e, q - c, r, tabWidth);
    WideAdd(q - c, c, tabWidth);
    WholeTabs(indent, tabWidth);
  }

  lemma MixedBlank(e: nat, n: nat, r: nat)
    ensures Blank(Repeat(' ', e) + Repeat('\t', n) + Repeat(' ', r))
  {
  }

  /** The same for any setting. */
  lemma ThereAndBack(line: string, indent: nat, useTabs: bool, tabWidth: nat)
    requires 0 < tabWidth && !BlankLine(line)
    ensures var off := Width(line, tabWidth);
      var there := Indented(line, off + indent, useTabs, tabWidth);
      var back := Back(there, indent, useTabs, tabWidth);
      && Width(there, tabWidth) == off + indent && there[Lead(there)..] == line[Lead(line)..]
      && back[Lead(back)..] == line[Lead(line)..]
      && (Width(back, tabWidth) == off <==>
          !useTabs || indent % tabWidth == 0 || (off + indent) / tabWidth <= (indent + tabWidth - 1) / tabWidth)
  {
    hide Back, Lead, Column, Filling, Width, TabsFor, BlankLine;
    var off, rest := Width(line, tabWidth), line[Lead(line)..];
    TabsForCeiling(indent, tabWidth);
    RestOf(line);
    IndentedWidth(line, off + indent, useTabs, tabWidth);
    if !useTabs {
      BackWithoutTabs(off, rest, indent, tabWidth);
    } else if (off + indent) / tabWidth < TabsFor(indent, tabWidth) {
      BackWithFewTabs(off, rest, indent, tabWidth);
    } else {
      BackWithTabs(off, rest, indent, tabWidth);
    }
  }

  lemma RestOf(line: string)
    requires !BlankLine(line)
    ensures var rest := line[Lead(line)..]; rest != [] && !IsBlank(rest[0])
  {
  }

  lemma FillingSpaces(tabWidth: nat, len: nat)
    requires 0 < tabWidth
    ensures Filling(false, tabWidth, len, 0) == Repeat(' ', len)
  {
  }

  /** In numbers a caller has at hand: a step takes as many tabs as the next whole number of tab widths. */
  lemma TabsForCeiling(indent: nat, tabWidth: nat)
    requires 0 < tabWidth
    ensures TabsFor(indent, tabWidth) == (indent + tabWidth - 1) / tabWidth
  {
    hide TabsFor, Wide;
    var c := TabsFor(indent, tabWidth);
    TabsForBounds(indent, 0, tabWidth);
    WideGrows(c, tabWidth);
    WideNone(indent, tabWidth);
    if indent > 0 {
      DivIs(indent + tabWidth - 1, tabWidth, c, indent + tabWidth - 1 - c * tabWidth);
    } else {
      DivIs(tabWidth - 1, tabWidth, 0, tabWidth - 1);
      TabsForNone(tabWidth);
    }
  }

  lemma TabsForNone(tabWidth: nat)
    requires 0 < tabWidth
    ensures TabsFor(0, tabWidth) == 0
  {
  }
}
