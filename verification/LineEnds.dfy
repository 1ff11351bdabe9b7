/** Loading a text and saving it again with its line ends (src/mooedit/mooedit-fileops.cpp). */
module LineEnds {

  const PARAGRAPH := '\U{2029}'

  datatype LineEnd = LeNone | LeUnix | LeWin32 | LeMac

  /** A line and what ends it; nothing ends the last one. */
  datatype Line = Line(text: string, term: string)

  predicate Breaks(c: char) {
    c == '\r' || c == '\n' || c == PARAGRAPH
  }

  ghost predicate Flat(s: string) {
    forall i :: 0 <= i < |s| ==> !Breaks(s[i])
  }

  /** How many characters at a place end a line. */
  function TermAt(s: string, i: nat): (n: nat)
    requires i < |s|
    ensures i + n <= |s| && (n == 0 <==> !Breaks(s[i]))
  {
    if s[i] == '\r' then
      if i + 1 < |s| && s[i + 1] == '\n' then 2 else 1
    else if s[i] == '\n' || s[i] == PARAGRAPH then 1
    else 0
  }

  /** The length of the first line. */
  ghost function First(s: string): (k: nat)
    ensures k <= |s| && Flat(s[..k]) && (k < |s| ==> Breaks(s[k]))
  {
    if s == [] || Breaks(s[0]) then 0 else
      var k := First(s[1..]);
      assert s[..k + 1] == [s[0]] + s[1..][..k];
      k + 1
  }

  ghost function Split(s: string): seq<Line>
    decreases |s|
  {
    var k := First(s);
    if k == |s| then [Line(s, [])] else
      var n := TermAt(s, k);
      [Line(s[..k], s[k..k + n])] + Split(s[k + n..])
  }

  ghost function Join(lines: seq<Line>): string {
    if lines == [] then [] else lines[0].text + lines[0].term + Join(lines[1..])
  }

  ghost predicate IsTerm(term: string) {
    term == "\r" || term == "\n" || term == "\r\n" || term == [PARAGRAPH]
  }

  /** What the lines of a text look like: in particular no line feed follows a carriage return. */
  ghost predicate Proper(lines: seq<Line>) {
    && lines != [] && Flat(lines[0].text)
    && if |lines| == 1 then lines[0].term == [] else
        IsTerm(lines[0].term) && Proper(lines[1..]) &&
        !(lines[0].term == "\r" && lines[1].text == [] && lines[1].term == "\n")
  }

  // ----- the two ways between texts and lists of lines

  lemma FirstIs(s: string, k: nat)
    requires k <= |s| && Flat(s[..k]) && (k < |s| ==> Breaks(s[k]))
    ensures First(s) == k
  {
    var m := First(s);
    assert forall i :: 0 <= i < |s[..m]| ==> s[..m][i] == s[i];
    assert forall i :: 0 <= i < |s[..k]| ==> s[..k][i] == s[i];
  }

  lemma SplitStep(s: string)
    ensures var k := First(s);
      Split(s) == if k == |s| then [Line(s, [])] else
        [Line(s[..k], s[k..k + TermAt(s, k)])] + Split(s[k + TermAt(s, k)..])
  {
    hide First, TermAt, Flat, Breaks;
  }

  lemma JoinFirst(line: Line, lines: seq<Line>)
    ensures Join([line] + lines) == line.text + line.term + Join(lines) && Join([]) == []
  {
    assert ([line] + lines)[1..] == lines;
  }

  lemma ProperFirst(line: Line, lines: seq<Line>)
    requires lines != [] ==> Proper(lines)
    ensures Proper([line] + lines) <==>
      Flat(line.text) &&
      if lines == [] then line.term == []
      else IsTerm(line.term) && !(line.term == "\r" && lines[0].text == [] && lines[0].term == "\n")
  {
    assert ([line] + lines)[1..] == lines;
  }

  lemma {:induction false} Parts(s: string)
    ensures Proper(Split(s)) && Join(Split(s)) == s
    decreases |s|
  {
    hide Split, Join, Proper, Flat, IsTerm, First;
    var k := First(s);
    SplitStep(s);
    if k == |s| {
      assert s[..k] == s && [Line(s, [])] + [] == [Line(s, [])];
      ProperFirst(Line(s, []), []);
      JoinFirst(Line(s, []), []);
    } else {
      var n := TermAt(s, k);
      var rest := s[k + n..];
      Parts(rest);
      NotEmpty(Split(rest));
      var line := Line(s[..k], s[k..k + n]);
      TermIs(s, k);
      FirstLine(rest);
      ProperFirst(line, Split(rest));
      JoinFirst(line, Split(rest));
      assert s == s[..k] + s[k..k + n] + rest;
    }
  }

  lemma NotEmpty(lines: seq<Line>)
    requires Proper(lines)
    ensures lines != []
  {
  }

  lemma TermIs(s: string, k: nat)
    requires k < |s| && Breaks(s[k])
    ensures IsTerm(s[k..k + TermAt(s, k)])
    ensures s[k..k + TermAt(s, k)] == "\r" ==> k + 1 == |s| || s[k + 1] != '\n'
  {
    var n := TermAt(s, k);
    assert n == 1 ==> s[k..k + n] == [s[k]];
    assert n == 2 ==> s[k..k + n] == [s[k], s[k + 1]];
  }

  /** A text that begins with a line feed has an empty first line, and the other way round. */
  lemma FirstLine(s: string)
    ensures Split(s)[0].text == [] && Split(s)[0].term == "\n" ==> s != [] && s[0] == '\n'
  {
    var k := First(s);
    if k == 0 && k < |s| {
      assert s[0..TermAt(s, 0)][0] == s[0];
    }
  }

  /** A proper list of lines is the list of lines of its text. */
  lemma {:induction false} SplitJoin(lines: seq<Line>)
    requires Proper(lines)
    ensures Split(Join(lines)) == lines
  {
    hide Split, Join, Proper, Flat, IsTerm, First, TermAt;
    NotEmpty(lines);
    var line, rest := lines[0], lines[1..];
    var s := Join(lines);
    assert lines == [line] + rest;
    if rest != [] {
      ProperRest(lines);
    }
    ProperFirst(line, rest);
    JoinFirst(line, rest);
    Pieces(line.text, line.term, Join(rest));
    SplitStep(s);
    if rest == [] {
      FirstIs(s, |s|);
    } else {
      JoinBegins(rest);
      TermWhole(line.text, line.term, Join(rest));
      FirstIs(s, |line.text|);
      SplitJoin(rest);
    }
  }

  lemma ProperRest(lines: seq<Line>)
    requires Proper(lines) && |lines| > 1
    ensures Proper(lines[1..])
  {
  }

  lemma Pieces(a: string, term: string, rest: string)
    ensures var s := a + term + rest; s[..|a|] == a && s[|a|..|a| + |term|] == term && s[|a| + |term|..] == rest
    ensures term == [] && rest == [] ==> a + term + rest == a
  {
  }

  lemma TermWhole(a: string, term: string, rest: string)
    requires IsTerm(term) && !(term == "\r" && rest != [] && rest[0] == '\n')
    ensures var s := a + term + rest; |a| < |s| && Breaks(s[|a|]) && TermAt(s, |a|) == |term|
  {
    var s := a + term + rest;
    assert s[|a|] == term[0];
    assert |a| + 1 < |s| ==> s[|a| + 1] == if |term| == 2 then term[1] else rest[0];
  }

  /** A text begins with a line feed only if an empty line that one ends comes first. */
  lemma JoinBegins(lines: seq<Line>)
    requires Proper(lines)
    ensures var s := Join(lines);
      s != [] && s[0] == '\n' ==> lines[0].text == [] && lines[0].term == "\n"
  {
    var a, term := lines[0].text, lines[0].term;
    assert a != [] ==> Join(lines)[0] == a[0];
    if |lines| == 1 {
      assert Join(lines[1..]) == [];
    } else if a == [] {
      assert Join(lines)[0] == term[0];
    }
  }

  // ----- what loading and saving do to the lines

  /** Each line with another end, but for the last one. */
  ghost function Ended(lines: seq<Line>, e: string): (r: seq<Line>)
    ensures |r| == |lines|
    ensures forall i :: 0 <= i < |r| ==> r[i] == Line(lines[i].text, EndedTerm(lines[i].term, e))
  {
    if lines == [] then [] else [Line(lines[0].text, EndedTerm(lines[0].term, e))] + Ended(lines[1..], e)
  }

  ghost function EndedTerm(term: string, e: string): string {
    if term == [] then [] else e
  }

  /** Loading makes every end a line feed, but leaves paragraph separators in the text. */
  ghost function Kept(lines: seq<Line>): (r: seq<Line>)
    ensures |r| == |lines|
    ensures forall i :: 0 <= i < |r| ==> r[i] == Line(lines[i].text, KeptTerm(lines[i].term))
  {
    if lines == [] then [] else [Line(lines[0].text, KeptTerm(lines[0].term))] + Kept(lines[1..])
  }

  ghost function KeptTerm(term: string): string {
    if term == [] || term == [PARAGRAPH] then term else "\n"
  }

  lemma {:induction false} EndedProper(lines: seq<Line>, e: string)
    requires Proper(lines) && (e == "\n" || e == "\r\n" || e == "\r")
    ensures Proper(Ended(lines, e))
  {
    assert Ended(lines, e)[1..] == Ended(lines[1..], e);
    if |lines| > 1 {
      EndedProper(lines[1..], e);
    }
  }

  lemma {:induction false} KeptProper(lines: seq<Line>)
    requires Proper(lines)
    ensures Proper(Kept(lines))
  {
    assert Kept(lines)[1..] == Kept(lines[1..]);
    if |lines| > 1 {
      KeptProper(lines[1..]);
    }
  }

  function KindOf(term: string): LineEnd {
    if term == "\r" then LeMac else if term == "\n" then LeUnix else if term == "\r\n" then LeWin32 else LeNone
  }

  /** Some line ends that way. */
  ghost predicate Occurs(lines: seq<Line>, le: LineEnd) {
    exists i :: 0 <= i < |lines| && KindOf(lines[i].term) == le
  }

  /** Two different kinds of line ends occur. */
  ghost predicate Mixed(lines: seq<Line>) {
    exists i, j :: 0 <= i < |lines| && 0 <= j < |lines| && KindOf(lines[i].term) != LeNone &&
      KindOf(lines[j].term) != LeNone && KindOf(lines[i].term) != KindOf(lines[j].term)
  }

  /** The kind that a document with a given kind has after loading. */
  ghost predicate Detected(lines: seq<Line>, was: LineEnd, le: LineEnd) {
    if Mixed(lines) then le == LeUnix
    else if forall i :: 0 <= i < |lines| ==> KindOf(lines[i].term) == LeNone then le == was
    else le != LeNone && Occurs(lines, le)
  }

  /** The characters of a kind; without one, those of the system. */
  function EndOf(le: LineEnd): string {
    match le
    case LeWin32 => "\r\n"
    case LeMac => "\r"
    case _ => "\n"
  }

  ghost predicate HasParagraph(s: string) {
    exists i :: 0 <= i < |s| && s[i] == PARAGRAPH
  }

  /** The text in the buffer after loading. */
  ghost function Loaded(s: string): string {
    Join(Kept(Split(s)))
  }

  /** The text in the file after saving. */
  ghost function Saved(text: string, le: LineEnd): string {
    Join(Ended(Split(text), EndOf(le)))
  }

  // ----- the promise

  /** Saving what was loaded gives the same lines with ends that are all of one kind, in place of paragraph
      separators, too. */
  lemma SavedLines(s: string, le: LineEnd)
    ensures Saved(Loaded(s), le) == Join(Ended(Split(s), EndOf(le)))
    ensures Split(Saved(Loaded(s), le)) == Ended(Split(s), EndOf(le))
  {
    hide Split, Join, Proper, Flat, IsTerm, Kept, Ended, EndedTerm, KeptTerm;
    var lines, e := Split(s), EndOf(le);
    Parts(s);
    KeptProper(lines);
    SplitJoin(Kept(lines));
    EndedProper(lines, e);
    SplitJoin(Ended(lines, e));
    forall t ensures EndedTerm(KeptTerm(t), e) == EndedTerm(t, e) {
      TermEnded(t, e);
    }
    assert Ended(Kept(lines), e) == Ended(lines, e);
  }

  lemma TermEnded(t: string, e: string)
    ensures EndedTerm(KeptTerm(t), e) == EndedTerm(t, e)
  {
  }

  /** A text just loaded is saved as it was exactly when it has no paragraph separators and not two kinds of
      line ends. */
  lemma RoundTrip(s: string, was: LineEnd, le: LineEnd)
    requires Detected(Split(s), was, le)
    ensures Saved(Loaded(s), le) == s <==> !HasParagraph(s) && !Mixed(Split(s))
  {
    hide Split, Join, Proper, HasParagraph, Mixed, Detected, Flat, Saved, Loaded;
    var lines, e := Split(s), EndOf(le);
    Parts(s);
    SavedLines(s, le);
    Paragraphs(lines);
    if Ended(lines, e) == lines {
      OneKind(lines, e);
    }
    if !HasParagraph(s) && !Mixed(lines) {
      OnlyKind(lines, was, le);
      assert Ended(lines, e) == lines;
    }
  }

  /** A text with a paragraph separator is never saved as it was. */
  lemma ParagraphLost(was: LineEnd, le: LineEnd)
    requires Detected(Split([PARAGRAPH]), was, le)
    ensures Saved(Loaded([PARAGRAPH]), le) != [PARAGRAPH]
  {
    hide Split, Saved, Loaded, Detected, Mixed;
    RoundTrip([PARAGRAPH], was, le);
    assert [PARAGRAPH][0] == PARAGRAPH;
  }

  lemma OneKind(lines: seq<Line>, e: string)
    requires Ended(lines, e) == lines && (e == "\n" || e == "\r\n" || e == "\r")
    ensures !Mixed(lines) && forall i :: 0 <= i < |lines| ==> lines[i].term != [PARAGRAPH]
  {
  }

  lemma OnlyKind(lines: seq<Line>, was: LineEnd, le: LineEnd)
    requires Proper(lines) && Detected(lines, was, le) && !Mixed(lines)
    requires forall i :: 0 <= i < |lines| ==> lines[i].term != [PARAGRAPH]
    ensures forall i :: 0 <= i < |lines| ==> lines[i].term == [] || lines[i].term == EndOf(le)
  {
    Terms(lines);
  }

  lemma {:induction false} Terms(lines: seq<Line>)
    requires Proper(lines)
    ensures forall i :: 0 <= i < |lines| ==> lines[i].term == [] || IsTerm(lines[i].term)
    ensures forall i :: 0 <= i < |lines| ==> Flat(lines[i].text)
  {
    if |lines| > 1 {
      Terms(lines[1..]);
      assert forall i :: 1 <= i < |lines| ==> lines[i] == lines[1..][i - 1];
    }
  }

  lemma {:induction false} Paragraphs(lines: seq<Line>)
    requires Proper(lines)
    ensures HasParagraph(Join(lines)) <==> exists i :: 0 <= i < |lines| && lines[i].term == [PARAGRAPH]
  {
    var s, head, rest := Join(lines), lines[0].text + lines[0].term, Join(lines[1..]);
    assert s == head + rest;
    assert forall i :: 1 <= i < |lines| ==> lines[i] == lines[1..][i - 1];
    assert HasParagraph(head) <==> lines[0].term == [PARAGRAPH] by {
      var a := lines[0].text;
      assert lines[0].term == [PARAGRAPH] ==> head[|a|] == PARAGRAPH;
      assert forall i :: 0 <= i < |a| ==> head[i] == a[i];
      assert forall i :: |a| <= i < |head| ==> head[i] == lines[0].term[i - |a|];
    }
    assert HasParagraph(s) <==> HasParagraph(head) || HasParagraph(rest) by {
      assert forall i :: 0 <= i < |head| ==> s[i] == head[i];
      assert forall i :: 0 <= i < |rest| ==> s[|head| + i] == rest[i];
      assert forall i :: |head| <= i < |s| ==> s[i] == rest[i - |head|];
    }
    if |lines| > 1 {
      Paragraphs(lines[1..]);
    }
  }

  /** Loading what was saved gives the buffer it was saved from, with a line feed for every paragraph separator,
      and the kind of line ends it was saved with. */
  lemma Reloaded(s: string, e: LineEnd, was: LineEnd, le: LineEnd)
    requires e != LeNone && Detected(Split(Saved(Loaded(s), e)), was, le)
    ensures Loaded(Saved(Loaded(s), e)) == Join(Ended(Split(s), "\n"))
    ensures le == if |Split(s)| == 1 then was else e
  {
    hide Split, Join, Proper, Flat, IsTerm, Occurs, Saved;
    var lines := Split(s);
    var saved := Ended(lines, EndOf(e));
    Parts(s);
    SavedLines(s, e);
    NotEmpty(lines);
    OnlyLast(lines);
    KindKept(lines, saved, e, was, le);
  }

  lemma KindKept(lines: seq<Line>, saved: seq<Line>, e: LineEnd, was: LineEnd, le: LineEnd)
    requires lines != [] && forall i :: 0 <= i < |lines| ==> (lines[i].term == [] <==> i == |lines| - 1)
    requires e != LeNone && saved == Ended(lines, EndOf(e)) && Detected(saved, was, le)
    ensures Kept(saved) == Ended(lines, "\n") && !Mixed(saved) && le == if |lines| == 1 then was else e
  {
    hide Kept, Mixed;
    KeptSame(lines, saved, e);
    assert |lines| > 1 ==> KindOf(saved[0].term) == e;
  }

  lemma KeptSame(lines: seq<Line>, saved: seq<Line>, e: LineEnd)
    requires e != LeNone && saved == Ended(lines, EndOf(e))
    ensures Kept(saved) == Ended(lines, "\n") && !Mixed(saved)
  {
    hide Kept, Ended, EndedTerm, KeptTerm, Mixed;
    forall t ensures KeptTerm(EndedTerm(t, EndOf(e))) == EndedTerm(t, "\n") {
      TermKept(t, e);
    }
    OneEnd(lines, EndOf(e));
  }

  lemma TermKept(t: string, e: LineEnd)
    ensures KeptTerm(EndedTerm(t, EndOf(e))) == EndedTerm(t, "\n")
  {
  }

  lemma OneEnd(lines: seq<Line>, e: string)
    ensures !Mixed(Ended(lines, e))
  {
    hide Ended;
  }

  lemma {:induction false} OnlyLast(lines: seq<Line>)
    requires Proper(lines)
    ensures forall i :: 0 <= i < |lines| ==> (lines[i].term == [] <==> i == |lines| - 1)
  {
    if |lines| > 1 {
      OnlyLast(lines[1..]);
      assert forall i :: 1 <= i < |lines| ==> lines[i] == lines[1..][i - 1];
    }
  }

  // ----- the same, character by character

  /** A text with one string for each line end, a carriage return and a line feed behind it being one, and another for
      each paragraph separator. */
  ghost function Rewritten(s: string, end: string, paragraph: string): string {
    if s == [] then []
    else if s[0] == '\r' && |s| > 1 && s[1] == '\n' then end + Rewritten(s[2..], end, paragraph)
    else if s[0] == '\r' || s[0] == '\n' then end + Rewritten(s[1..], end, paragraph)
    else if s[0] == '\U{2029}' then paragraph + Rewritten(s[1..], end, paragraph)
    else [s[0]] + Rewritten(s[1..], end, paragraph)
  }

  lemma {:induction false} RewrittenFlat(s: string, k: nat, end: string, paragraph: string)
    requires k <= |s| && Flat(s[..k])
    ensures Rewritten(s, end, paragraph) == s[..k] + Rewritten(s[k..], end, paragraph)
  {
    if k > 0 {
      assert forall i :: 0 <= i < k ==> s[..k][i] == s[i];
      assert s[1..][..k - 1] == s[..k][1..] && s[1..][k - 1..] == s[k..];
      RewrittenFlat(s[1..], k - 1, end, paragraph);
      assert s[..k] == [s[0]] + s[1..][..k - 1];
    }
  }

  lemma RewrittenTerm(s: string, end: string, paragraph: string)
    requires s != [] && Breaks(s[0])
    ensures var n := TermAt(s, 0);
      Rewritten(s, end, paragraph) ==
        (if s[..n] == [PARAGRAPH] then paragraph else end) + Rewritten(s[n..], end, paragraph)
  {
  }

  /** One line and its end. */
  lemma RewrittenLine(s: string, end: string, paragraph: string)
    requires First(s) < |s|
    ensures var k := First(s); var n := TermAt(s, k);
      Rewritten(s, end, paragraph) ==
        s[..k] + (if s[k..k + n] == [PARAGRAPH] then paragraph else end) + Rewritten(s[k + n..], end, paragraph)
  {
    hide Rewritten, Flat, Breaks, TermAt, First;
    var k := First(s);
    var t, n := s[k..], TermAt(s, k);
    RewrittenFlat(s, k, end, paragraph);
    SameTerm(s, k, k);
    RewrittenTerm(t, end, paragraph);
    assert t[..n] == s[k..k + n] && t[n..] == s[k + n..];
  }

  lemma RewrittenLast(s: string, end: string, paragraph: string)
    requires First(s) == |s|
    ensures Rewritten(s, end, paragraph) == s
  {
    hide Flat;
    RewrittenFlat(s, |s|, end, paragraph);
    assert s[..|s|] == s && s[|s|..] == [];
  }

  /** In the buffer, every line end is a line feed and everything else is as it was, paragraph separators too. */
  lemma {:induction false} LoadedText(s: string)
    ensures Loaded(s) == Rewritten(s, "\n", "\U{2029}")
    decreases |s|
  {
    hide Rewritten, Split, Join, Kept, First, TermAt, Flat;
    var k := First(s);
    SplitStep(s);
    if k == |s| {
      RewrittenLast(s, "\n", "\U{2029}");
      KeptFirst(Line(s, []), []);
      assert [Line(s, [])] + [] == [Line(s, [])];
    } else {
      var rest := s[k + TermAt(s, k)..];
      RewrittenLine(s, "\n", "\U{2029}");
      LoadedText(rest);
      KeptFirst(Line(s[..k], s[k..k + TermAt(s, k)]), Split(rest));
    }
  }

  lemma KeptFirst(line: Line, lines: seq<Line>)
    ensures Join(Kept([line] + lines)) == line.text + KeptTerm(line.term) + Join(Kept(lines))
    ensures Join(Kept([])) == [] && line.text + KeptTerm([]) + [] == line.text
  {
    hide Join;
    assert ([line] + lines)[1..] == lines;
    JoinFirst(Line(line.text, KeptTerm(line.term)), Kept(lines));
    assert line.text + [] == line.text;
  }

  /** In the file, every line end and every paragraph separator is the document's kind of line end. */
  lemma SavedText(s: string, le: LineEnd)
    ensures le == LeWin32 ==> Saved(s, le) == Rewritten(s, "\r\n", "\r\n")
    ensures le == LeMac ==> Saved(s, le) == Rewritten(s, "\r", "\r")
    ensures le == LeUnix || le == LeNone ==> Saved(s, le) == Rewritten(s, "\n", "\n")
  {
    hide Saved, Rewritten;
    SavedWith(s, le);
  }

  /** A text with two kinds of line ends is saved with line feeds. */
  lemma MixedSaved(s: string, was: LineEnd, le: LineEnd)
    requires Detected(Split(s), was, le) && Mixed(Split(s))
    ensures Saved(Loaded(s), le) == Rewritten(Loaded(s), "\n", "\n")
  {
    hide Saved, Loaded, Rewritten, Split, Mixed;
    SavedText(Loaded(s), le);
  }

  lemma {:induction false} SavedWith(s: string, le: LineEnd)
    ensures Saved(s, le) == Rewritten(s, EndOf(le), EndOf(le))
    decreases |s|
  {
    hide Rewritten, Split, Join, Ended, First, TermAt, Flat, EndOf;
    var k, e := First(s), EndOf(le);
    SplitStep(s);
    if k == |s| {
      RewrittenLast(s, e, e);
      EndedFirst(Line(s, []), [], e);
      assert [Line(s, [])] + [] == [Line(s, [])];
    } else {
      var rest := s[k + TermAt(s, k)..];
      RewrittenLine(s, e, e);
      SavedWith(rest, le);
      EndedFirst(Line(s[..k], s[k..k + TermAt(s, k)]), Split(rest), e);
    }
  }

  lemma EndedFirst(line: Line, lines: seq<Line>, e: string)
    ensures Join(Ended([line] + lines, e)) == line.text + EndedTerm(line.term, e) + Join(Ended(lines, e))
    ensures Join(Ended([], e)) == [] && line.text + EndedTerm([], e) + [] == line.text
  {
    hide Join;
    assert ([line] + lines)[1..] == lines;
    JoinFirst(Line(line.text, EndedTerm(line.term, e)), Ended(lines, e));
    assert line.text + [] == line.text;
  }

  // ----- one line after the other

  lemma {:induction false} JoinJoin(a: seq<Line>, b: seq<Line>)
    ensures Join(a + b) == Join(a) + Join(b)
  {
    if a == [] {
      assert a + b == b;
    } else {
      assert (a + b)[1..] == a[1..] + b;
      JoinJoin(a[1..], b);
    }
  }

  lemma NextLine(lines: seq<Line>, line: Line, e: string)
    ensures Join(Kept(lines + [line])) == Join(Kept(lines)) + line.text + KeptTerm(line.term)
    ensures Join(Ended(lines + [line], e)) == Join(Ended(lines, e)) + line.text + EndedTerm(line.term, e)
  {
    hide Join, Kept, Ended, EndedTerm, KeptTerm;
    var k, d := Line(line.text, KeptTerm(line.term)), Line(line.text, EndedTerm(line.term, e));
    assert Kept(lines + [line]) == Kept(lines) + [k];
    assert Ended(lines + [line], e) == Ended(lines, e) + [d];
    LastJoined(Kept(lines), k);
    LastJoined(Ended(lines, e), d);
  }

  lemma LastJoined(lines: seq<Line>, line: Line)
    ensures Join(lines + [line]) == Join(lines) + line.text + line.term
  {
    hide Join;
    JoinJoin(lines, [line]);
    JoinFirst(line, []);
    assert [line] + [] == [line];
    assert line.text + line.term + [] == line.text + line.term;
    assert Join(lines) + (line.text + line.term) == Join(lines) + line.text + line.term;
  }

  lemma NextKind(lines: seq<Line>, line: Line)
    ensures forall le :: Occurs(lines + [line], le) <==> Occurs(lines, le) || KindOf(line.term) == le
    ensures Mixed(lines + [line]) <==>
      Mixed(lines) ||
      (KindOf(line.term) != LeNone && exists le :: Occurs(lines, le) && le != LeNone && le != KindOf(line.term))
  {
    var now := lines + [line];
    assert forall i :: 0 <= i < |lines| ==> now[i] == lines[i];
    assert now[|lines|] == line;
    forall le ensures Occurs(now, le) <==> Occurs(lines, le) || KindOf(line.term) == le {
    }
    if Mixed(now) && !Mixed(lines) {
      var i, j :| 0 <= i < |now| && 0 <= j < |now| && KindOf(now[i].term) != LeNone &&
        KindOf(now[j].term) != LeNone && KindOf(now[i].term) != KindOf(now[j].term);
      assert i == |lines| || j == |lines|;
      var k := if i == |lines| then j else i;
      assert Occurs(lines, KindOf(lines[k].term));
    }
  }

  /** What the two variables of the scan say about the lines so far. */
  ghost predicate Seen(lines: seq<Line>, le: LineEnd, mixed: bool) {
    && (mixed <==> Mixed(lines)) && (mixed ==> le != LeNone)
    && if le == LeNone then forall k :: Occurs(lines, k) ==> k == LeNone else Occurs(lines, le)
  }

  lemma SeenNext(lines: seq<Line>, line: Line, le: LineEnd, mixed: bool)
    requires Seen(lines, le, mixed)
    ensures var here := KindOf(line.term);
      var differs := here != LeNone && (mixed || (le != LeNone && le != here));
      Seen(lines + [line], if here == LeNone || differs then le else here, mixed || differs)
  {
    hide Mixed, Occurs, KindOf;
    NextKind(lines, line);
    if mixed {
      assert Mixed(lines + [line]);
    } else if le != LeNone {
      OneOccurs(lines, le);
    }
  }

  lemma OneOccurs(lines: seq<Line>, le: LineEnd)
    requires !Mixed(lines) && le != LeNone && Occurs(lines, le)
    ensures forall k :: Occurs(lines, k) ==> k == LeNone || k == le
  {
  }

  /** What they come to. */
  lemma Kinds(lines: seq<Line>, mixed: bool, le: LineEnd, was: LineEnd)
    requires Seen(lines, le, mixed)
    ensures Detected(lines, was, if mixed then LeUnix else if le != LeNone then le else was)
  {
    if le == LeNone {
      forall i | 0 <= i < |lines| ensures KindOf(lines[i].term) == LeNone {
        assert Occurs(lines, KindOf(lines[i].term));
      }
    }
  }

  lemma NoLines()
    ensures Join(Kept([])) == [] && Seen([], LeNone, false) && forall e :: Join(Ended([], e)) == []
  {
    forall k ensures !Occurs([], k) {
    }
    assert !Mixed([]);
  }

  lemma SavedIs(text: string, le: LineEnd)
    ensures Saved(text, le) == Join(Ended(Split(text), EndOf(le))) && EndOf(LeNone) == EndOf(LeUnix)
  {
  }

  lemma SomeTerm(term: string, e: string)
    requires IsTerm(term) || term == []
    ensures term != [] ==> EndedTerm(term, e) == e
    ensures IsTerm(term) ==> term != []
  {
  }

  lemma LoadedIs(s: string)
    ensures Loaded(s) == Join(Kept(Split(s)))
  {
  }

  lemma NoTerm()
    ensures KindOf([]) == LeNone && KeptTerm([]) == [] && forall e :: EndedTerm([], e) == []
  {
  }

  lemma OneLine()
    ensures Split([]) == [Line([], [])] && Join(Kept(Split([]))) == []
    ensures forall was :: Detected(Split([]), was, was)
  {
  }

  /** An empty line at the end adds nothing. */
  lemma NothingLeft(s: string, lines: seq<Line>, e: string)
    ensures Split(s[|s|..]) == [Line([], [])] && Join(Ended(lines + [Line([], [])], e)) == Join(Ended(lines, e))
  {
    hide Join, Ended;
    assert s[|s|..] == [];
    NextLine(lines, Line([], []), e);
    OneLine();
    NoTerm();
    assert Join(Ended(lines, e)) + [] + [] == Join(Ended(lines, e));
  }

  /** The first line of what is left, and the rest. */
  lemma SplitNext(s: string, at: nat, end: nat, line: Line)
    requires at <= end < |s| && Flat(s[at..end]) && Breaks(s[end])
    requires line == Line(s[at..end], s[end..end + TermAt(s, end)])
    ensures Split(s[at..]) == [line] + Split(s[end + TermAt(s, end)..])
  {
    hide Split, Flat, First, TermAt;
    var t, k, n := s[at..], end - at, TermAt(s, end);
    assert t[..k] == s[at..end];
    assert t[k] == s[end];
    FirstIs(t, k);
    SplitStep(t);
    SameTerm(s, at, end);
    assert t[k..k + n] == s[end..end + n];
    assert t[k + n..] == s[end + n..];
  }

  lemma SameTerm(s: string, at: nat, end: nat)
    requires at <= end < |s|
    ensures TermAt(s[at..], end - at) == TermAt(s, end)
  {
  }

  lemma SplitLast(s: string, at: nat)
    requires at <= |s| && Flat(s[at..])
    ensures Split(s[at..]) == [Line(s[at..], [])]
  {
    hide Flat, First;
    var t := s[at..];
    assert t[..|t|] == t;
    FirstIs(t, |t|);
  }

  /** Where the line ends that begins at a place, and how many characters end it. */
  method FindEnd(s: string, at: nat) returns (end: nat, n: nat)
    requires at <= |s|
    ensures at <= end <= |s| && Flat(s[at..end]) && (n == 0 <==> end == |s|)
    ensures n != 0 ==> n == TermAt(s, end) && Breaks(s[end])
  {
    hide Flat;
    end, n := at, 0;
    NoneFlat(s, at);
    while end < |s| && n == 0
      invariant at <= end <= |s| && Flat(s[at..end]) && (n != 0 ==> end < |s| && n == TermAt(s, end))
      decreases |s| - end, if n == 0 then 1 else 0
    {
      if s[end] == '\r' {
        if end + 1 < |s| && s[end + 1] == '\n' {
          n := 2;
        } else {
          n := 1;
        }
      } else if s[end] == '\n' || s[end] == PARAGRAPH {
        n := 1;
      } else {
        OneFlat(s, at, end);
        end := end + 1;
      }
    }
  }

  lemma NoneFlat(s: string, at: nat)
    requires at <= |s|
    ensures Flat(s[at..at])
  {
  }

  lemma OneFlat(s: string, at: nat, end: nat)
    requires at <= end < |s| && Flat(s[at..end]) && !Breaks(s[end])
    ensures Flat(s[at..end + 1])
  {
    assert s[at..end + 1] == s[at..end] + [s[end]];
  }

  method ReadLine(s: string, at: nat) returns (end: nat, n: nat, ghost line: Line)
    requires at <= |s|
    ensures at <= end && end + n <= |s| && (n == 0 <==> end == |s|)
    ensures line == Line(s[at..end], s[end..end + n]) && (if n == 0 then line.term == [] else IsTerm(line.term))
    ensures Split(s[at..]) == if n == 0 then [line] else [line] + Split(s[end + n..])
  {
    hide Split, Flat, Breaks, IsTerm;
    end, n := FindEnd(s, at);
    line := Line(s[at..end], s[end..end + n]);
    if n == 0 {
      assert s[at..end] == s[at..] && s[end..end + n] == [];
      SplitLast(s, at);
    } else {
      TermIs(s, end);
      SplitNext(s, at, end, line);
    }
  }

  // ----- the program

  class Document {
    var text: string
    var lineEnd: LineEnd

    constructor ()
      ensures text == [] && lineEnd == LeNone
    {
      text, lineEnd := [], LeNone;
    }

    /** The kind of a line end, and whether it goes into the buffer as a line feed. */
    method Classify(term: string) returns (here: LineEnd, breaks: bool)
      requires IsTerm(term)
      ensures here == KindOf(term) && KeptTerm(term) == if breaks then "\n" else term
    {
      here, breaks := LeNone, true;
      if term == "\r" {
        here := LeMac;
      } else if term == "\n" {
        here := LeUnix;
      } else if term == "\r\n" {
        here := LeWin32;
      } else {
        breaks := false;
      }
    }

    method LoadText(s: string)
      modifies this
      ensures text == Loaded(s) && Detected(Split(s), old(lineEnd), lineEnd)
    {
      hide *;
      var buffer, le, mixed, at, more := "", LeNone, false, 0, s != [];
      ghost var read := [];
      NoLines();
      assert s[0..] == s;
      while more
        invariant at <= |s| && (s != [] ==> Split(s) == if more then read + Split(s[at..]) else read)
        invariant s == [] ==> read == [] && !more
        invariant buffer == Join(Kept(read))
        invariant Seen(read, le, mixed) && lineEnd == old(lineEnd)
        decreases |s| - at, more
      {
        var end, n, line := ReadLine(s, at);
        NoTerm();
        NextLine(read, line, "");
        SeenNext(read, line, le, mixed);
        buffer := buffer + s[at..end];
        if n != 0 {
          var term := s[end..end + n];
          var here, breaks := Classify(term);
          if breaks {
            buffer := buffer + "\n";
          } else {
            buffer := buffer + term;
          }
          if here != LeNone {
            if mixed || (le != LeNone && le != here) {
              mixed := true;
            } else {
              le := here;
            }
          }
        }
        assert Seen(read + [line], le, mixed);
        read, at, more := read + [line], end + n, n != 0;
      }
      text := buffer;
      LoadedIs(s);
      Kinds(read, mixed, le, lineEnd);
      OneLine();
      if mixed {
        le := LeUnix;
      }
      if le != LeNone {
        lineEnd := le;
      }
    }

    method GetLineEnd() returns (le: LineEnd)
      ensures le == if lineEnd == LeNone then LeUnix else lineEnd
    {
      le := if lineEnd == LeNone then LeUnix else lineEnd;
    }

    /** One more line of the text to be saved. */
    method SaveLine(at: nat, ending: string, contents: string, ghost done: seq<Line>)
        returns (now: string, next: nat, ghost line: Line, ghost last: bool)
      requires at <= |text| && contents == Join(Ended(done, ending))
      ensures at <= next <= |text| && now == Join(Ended(done + [line], ending))
      ensures Split(text[at..]) == if last then [line] else [line] + Split(text[next..])
      ensures if last then next == |text| else at < next
    {
      hide *;
      var end, n;
      end, n, line := ReadLine(text, at);
      NoTerm();
      SomeTerm(line.term, ending);
      NextLine(done, line, ending);
      now, next, last := contents, end + n, n == 0;
      if at < end {
        now := now + text[at..end];
      }
      if end < |text| {
        now := now + ending;
      }
    }

    /** The text to be saved. */
    method GetContents() returns (contents: string)
      ensures contents == Saved(text, lineEnd)
    {
      hide *;
      var le := GetLineEnd();
      var ending := EndOf(le);
      SavedIs(text, lineEnd);
      contents := "";
      var at := 0;
      ghost var done, line, last := [], Line([], []), false;
      NoLines();
      assert text[0..] == text;
      while true
        invariant at <= |text| && done + Split(text[at..]) == Split(text) && contents == Join(Ended(done, ending))
        decreases |text| - at
      {
        contents, at, line, last := SaveLine(at, ending, contents, done);
        done := done + [line];
        if at == |text| {
          NothingLeft(text, done, ending);
          assert !last ==> Split(text) == done + [Line([], [])];
          break;
        }
      }
    }
  }
}
