/** Reading settings from text such as "lang: c; indent-width = '4'" (src/mooedit/mooeditconfig.cpp). */
module ConfigStrings {

  datatype Setting = Setting(name: string, value: string)

  /** One step of reading: the text is at its end, cannot be read, makes the scan leave the text, or begins
      with a setting. */
  datatype Step = End | Bad | Overrun | Item(setting: Setting, rest: string)

  predicate IsSpace(c: char) {
    || c == ' ' || c == '\t' || c == '\n' || c == '\r' || c == '\U{000C}' || c == '\U{00A0}' || c == '\U{1680}'
    || '\U{2000}' <= c <= '\U{200A}' || c == '\U{2028}' || c == '\U{2029}' || c == '\U{202F}' || c == '\U{205F}' ||
      c == '\U{3000}'
  }

  predicate IsSeparator(c: char) {
    c == ',' || c == ';'
  }

  // ----- what the parts of a setting are

  /** How many characters there are before the first one that stops a scan. */
  ghost function Span(s: string, stop: char -> bool): (k: nat)
    ensures k <= |s| && (forall i :: 0 <= i < k ==> !stop(s[i])) && (k < |s| ==> stop(s[k]))
  {
    if s == [] || stop(s[0]) then 0 else 1 + Span(s[1..], stop)
  }

  ghost function NotSpace(): char -> bool {
    c => !IsSpace(c)
  }

  ghost function Is(d: char): char -> bool {
    c => c == d
  }

  ghost function ValueEnd(): char -> bool {
    c => IsSpace(c) || IsSeparator(c)
  }

  ghost function SkipSpace(s: string): (r: string)
    ensures |r| <= |s|
  {
    s[Span(s, NotSpace())..]
  }

  /** Spaces, at most one separator, and more spaces. */
  ghost function SkipSeparator(s: string): (r: string)
    ensures |r| <= |s|
  {
    var t := SkipSpace(s);
    if t != [] && IsSeparator(t[0]) then SkipSpace(t[1..]) else t
  }

  /** A text without the spaces at its end. */
  ghost function TrimEnd(s: string): (r: string)
    ensures r <= s && (r != [] ==> !IsSpace(r[|r| - 1]))
  {
    if s != [] && IsSpace(s[|s| - 1]) then TrimEnd(s[..|s| - 1]) else s
  }

  /** A setting written name: value; the value ends at a space or a separator. */
  ghost function ColonItem(name: string, after: string): (r: Step)
    ensures r != End && (r.Item? ==> |r.rest| <= |after|)
  {
    var v := SkipSpace(after);
    if v == [] || IsSeparator(v[0]) then Bad else
      Item(Setting(name, v[..ValueLength(v)]), SkipSeparator(v[ValueLength(v)..]))
  }

  /** How long the value is at the beginning of a text; its first character always belongs to it. */
  ghost function ValueLength(v: string): (k: nat)
    requires v != []
    ensures 0 < k <= |v|
  {
    1 + Span(v[1..], ValueEnd())
  }

  /** A setting written name = 'value', with any character for a quote. The closing quote is looked for from the
      second character of the value on, which lies outside a text that ends with its opening quote. */
  ghost function AssignItem(name: string, after: string): (r: Step)
    ensures r != End && (r.Item? ==> |r.rest| <= |after|)
  {
    var v := SkipSpace(after);
    if v == [] then Bad else if |v| == 1 then Overrun else
      var k := 2 + Span(v[2..], Is(v[0]));
      if k == |v| then Bad else
        Item(Setting(name, v[1..k]), SkipSeparator(v[k + 1..]))
  }

  /** The name before the colon or the equals sign at a place, and what follows. */
  ghost function ItemAt(p: string, mark: nat): (r: Step)
    requires mark < |p|
    ensures r != End && (r.Item? ==> |r.rest| < |p|)
  {
    var name := TrimEnd(p[..mark]);
    if name == [] then Bad
    else if p[mark] == ':' then ColonItem(name, p[mark + 1..])
    else AssignItem(name, p[mark + 1..])
  }

  ghost function Mark(): char -> bool {
    c => c == ':' || c == '='
  }

  /** The setting a text begins with, and what is behind it and its separator. */
  ghost function Next(s: string): (r: Step)
    ensures r.Item? ==> |r.rest| < |s|
  {
    var p := SkipSpace(s);
    var mark := Span(p, Mark());
    if p == [] then End
    else if mark == |p| then Bad
    else ItemAt(p, mark)
  }

  /** The texts at which reading steps begin: the whole text, and what is left after each setting. */
  ghost function Reached(s: string): (r: seq<string>)
    ensures r != [] && r[0] == s
    decreases |s|
  {
    match Next(s)
    case Item(_, rest) => [s] + Reached(rest)
    case _ => [s]
  }

  /** The settings of a text, up to its end or the first place that cannot be read. */
  ghost function Settings(s: string): seq<Setting>
    decreases |s|
  {
    match Next(s)
    case Item(setting, rest) => [setting] + Settings(rest)
    case _ => []
  }

  /** How reading ends. */
  ghost function Outcome(s: string): Step
    decreases |s|
  {
    match Next(s)
    case Item(setting, rest) => Outcome(rest)
    case step => step
  }

  ghost predicate Readable(s: string) {
    Outcome(s) == End
  }

  // ----- the scan

  lemma {:induction false} SpanIs(s: string, k: nat, stop: char -> bool)
    requires k <= |s| && (forall i :: 0 <= i < k ==> !stop(s[i])) && (k < |s| ==> stop(s[k]))
    ensures Span(s, stop) == k
  {
    if k > 0 {
      SpanIs(s[1..], k - 1, stop);
    }
  }

  lemma Slices(s: string, p: nat, a: nat, b: nat)
    requires p <= a <= b <= |s|
    ensures s[p..][a - p..] == s[a..] && s[p..][a - p..b - p] == s[a..b]
    ensures a < |s| ==> s[p..][a - p] == s[a]
  {
  }

  lemma SkipStep(s: string, p: nat)
    requires p <= |s|
    ensures SkipSpace(s[p..]) == if p < |s| && IsSpace(s[p]) then SkipSpace(s[p + 1..]) else s[p..]
  {
    if p < |s| {
      assert s[p..][1..] == s[p + 1..];
      assert IsSpace(s[p]) ==> Span(s[p..], NotSpace()) == 1 + Span(s[p + 1..], NotSpace());
    }
  }

  lemma SeparatorStep(s: string, p: nat)
    requires p <= |s|
    ensures SkipSeparator(s[p..]) ==
      if p == |s| then s[p..] else if IsSpace(s[p]) then SkipSeparator(s[p + 1..])
      else if IsSeparator(s[p]) then SkipSpace(s[p + 1..]) else s[p..]
  {
    hide SkipSpace;
    SkipStep(s, p);
    if p < |s| {
      assert s[p..][1..] == s[p + 1..];
    }
  }

  method SkipSpaceAt(s: string, p: nat) returns (q: nat)
    requires p <= |s|
    ensures p <= q <= |s| && s[q..] == SkipSpace(s[p..])
  {
    hide SkipSpace, Span;
    q := p;
    while q < |s| && IsSpace(s[q])
      invariant p <= q <= |s| && SkipSpace(s[q..]) == SkipSpace(s[p..])
    {
      SkipStep(s, q);
      q := q + 1;
    }
    SkipStep(s, q);
  }

  method SkipSeparatorAt(s: string, p: nat) returns (q: nat)
    requires p <= |s|
    ensures p <= q <= |s| && s[q..] == SkipSeparator(s[p..])
  {
    hide SkipSpace, SkipSeparator;
    var seenSeparator := false;
    q := p;
    while q < |s|
      invariant p <= q <= |s|
      invariant SkipSeparator(s[p..]) == if seenSeparator then SkipSpace(s[q..]) else SkipSeparator(s[q..])
      decreases |s| - q
    {
      SeparatorStep(s, q);
      if !seenSeparator && (s[q] == ',' || s[q] == ';') {
        seenSeparator := true;
        q := q + 1;
      }
      SkipStep(s, q);
      if q < |s| && IsSpace(s[q]) {
        q := q + 1;
      } else {
        return;
      }
    }
    SkipStep(s, q);
    SeparatorStep(s, q);
  }

  /** Where the given character is next, or the end. */
  method Find(s: string, p: nat, c: char) returns (q: nat)
    requires p <= |s|
    ensures p <= q <= |s| && q - p == Span(s[p..], Is(c))
  {
    q := p;
    while q < |s| && s[q] != c
      invariant p <= q <= |s| && forall i :: p <= i < q ==> s[i] != c
    {
      q := q + 1;
    }
    SpanIs(s[p..], q - p, Is(c));
  }

  method FindValueEnd(s: string, p: nat) returns (q: nat)
    requires p <= |s|
    ensures p <= q <= |s| && q - p == Span(s[p..], ValueEnd())
  {
    q := p;
    while q < |s| && !IsSpace(s[q]) && s[q] != ';' && s[q] != ','
      invariant p <= q <= |s| && forall i :: p <= i < q ==> !IsSpace(s[i]) && !IsSeparator(s[i])
    {
      q := q + 1;
    }
    SpanIs(s[p..], q - p, ValueEnd());
  }

  method TrimBack(s: string, from: nat, to: nat) returns (end: nat)
    requires from <= to <= |s|
    ensures from <= end <= to && s[from..end] == TrimEnd(s[from..to])
  {
    hide TrimEnd;
    end := to;
    while end > from && IsSpace(s[end - 1])
      invariant from <= end <= to && TrimEnd(s[from..end]) == TrimEnd(s[from..to])
    {
      TrimStep(s[from..end]);
      DropLast(s, from, end);
      end := end - 1;
    }
    TrimStep(s[from..end]);
  }

  lemma DropLast(s: string, from: nat, end: nat)
    requires from < end <= |s|
    ensures s[from..end][..end - from - 1] == s[from..end - 1] && s[from..end][end - from - 1] == s[end - 1]
  {
  }

  lemma TrimStep(s: string)
    ensures TrimEnd(s) == if s != [] && IsSpace(s[|s| - 1]) then TrimEnd(s[..|s| - 1]) else s
  {
  }

  /** Reads settings until the end or something that cannot be read. */
  method Parse(s: string) returns (settings: seq<Setting>, outcome: Step)
    ensures settings == Settings(s) && outcome == Outcome(s)
  {
    hide SkipSpace, SkipSeparator, Span, TrimEnd;
    var p := 0;
    settings, outcome := [], End;
    assert s[0..] == s;
    while p < |s|
      invariant p <= |s| && Settings(s) == settings + Settings(s[p..]) && Outcome(s) == Outcome(s[p..])
      decreases |s| - p
    {
      var step, q := ParseOne(s, p);
      match step {
        case Item(setting, _) =>
          settings := settings + [setting];
          p := q;
        case _ =>
          outcome := step;
          return;
      }
    }
    SkipStep(s, p);
  }

  method ParseOne(s: string, at: nat) returns (step: Step, q: nat)
    requires at < |s|
    ensures step == Next(s[at..]) && (step.Item? ==> at < q <= |s| && step.rest == s[q..])
  {
    hide SkipSpace, Span, TrimEnd, ItemAt;
    q := 0;
    var p := SkipSpaceAt(s, at);
    if p == |s| {
      return End, 0;
    }
    var colon := Find(s, p, ':');
    var assign := Find(s, p, '=');
    EitherMark(s[p..], colon - p, assign - p);
    if colon == |s| && assign == |s| {
      return Bad, 0;
    }
    step, q := ParseItem(s, p, if colon < assign then colon else assign);
  }

  lemma EitherMark(t: string, colon: nat, assign: nat)
    requires colon == Span(t, Is(':')) && assign == Span(t, Is('='))
    ensures Span(t, Mark()) == if colon < assign then colon else assign
  {
    SpanIs(t, if colon < assign then colon else assign, Mark());
  }

  method ParseItem(s: string, p: nat, mark: nat) returns (step: Step, q: nat)
    requires p <= mark < |s| && Mark()(s[mark])
    ensures step == ItemAt(s[p..], mark - p) && (step.Item? ==> p < q <= |s| && step.rest == s[q..])
  {
    hide SkipSpace, Span, TrimEnd, ColonItem, AssignItem;
    Slices(s, p, p, mark);
    Slices(s, p, mark, |s|);
    Slices(s, p, mark + 1, |s|);
    var nameEnd := TrimBack(s, p, mark);
    if nameEnd == p {
      return Bad, 0;
    }
    if s[mark] == ':' {
      step, q := ParseColon(s, s[p..nameEnd], mark + 1);
    } else {
      step, q := ParseAssign(s, s[p..nameEnd], mark + 1);
    }
  }

  method ParseColon(s: string, name: string, after: nat) returns (step: Step, q: nat)
    requires after <= |s|
    ensures step == ColonItem(name, s[after..]) && (step.Item? ==> after < q <= |s| && step.rest == s[q..])
  {
    hide SkipSpace, SkipSeparator, Span, ColonItem;
    var v := SkipSpaceAt(s, after);
    ColonBad(name, s[after..]);
    if v == |s| || s[v] == ';' || s[v] == ',' {
      return Bad, 0;
    }
    var end := FindValueEnd(s, v + 1);
    ColonGood(name, s, after, v, end);
    q := SkipSeparatorAt(s, end);
    step := Item(Setting(name, s[v..end]), s[q..]);
  }

  lemma ColonBad(name: string, t: string)
    ensures var v := SkipSpace(t); v == [] || IsSeparator(v[0]) ==> ColonItem(name, t) == Bad
  {
    hide SkipSpace, SkipSeparator, Span;
  }

  lemma ColonGood(name: string, s: string, after: nat, v: nat, end: nat)
    requires after <= v < end <= |s| && SkipSpace(s[after..]) == s[v..] && !IsSeparator(s[v])
    requires end - (v + 1) == Span(s[v + 1..], ValueEnd())
    ensures ColonItem(name, s[after..]) == Item(Setting(name, s[v..end]), SkipSeparator(s[end..]))
  {
    hide SkipSpace, SkipSeparator, Span;
    Slices(s, v, v + 1, end);
    Slices(s, v, v, end);
    Slices(s, v, end, end);
  }

  method ParseAssign(s: string, name: string, after: nat) returns (step: Step, q: nat)
    requires after <= |s|
    ensures step == AssignItem(name, s[after..]) && (step.Item? ==> after < q <= |s| && step.rest == s[q..])
  {
    hide SkipSpace, SkipSeparator, Span, AssignItem;
    var v := SkipSpaceAt(s, after);
    AssignShort(name, s[after..]);
    if v == |s| {
      return Bad, 0;
    }
    if v + 1 == |s| {
      return Overrun, 0;
    }
    var end := Find(s, v + 2, s[v]);
    AssignGood(name, s, after, v, end);
    if end == |s| {
      return Bad, 0;
    }
    q := SkipSeparatorAt(s, end + 1);
    step := Item(Setting(name, s[v + 1..end]), s[q..]);
  }

  lemma AssignShort(name: string, t: string)
    ensures var v := SkipSpace(t);
      (v == [] ==> AssignItem(name, t) == Bad) && (|v| == 1 ==> AssignItem(name, t) == Overrun)
  {
    hide SkipSpace, SkipSeparator, Span;
  }

  lemma AssignGood(name: string, s: string, after: nat, v: nat, end: nat)
    requires after <= v && v + 2 <= end <= |s| && SkipSpace(s[after..]) == s[v..]
    requires end - (v + 2) == Span(s[v + 2..], Is(s[v]))
    ensures AssignItem(name, s[after..]) ==
      if end == |s| then Bad else Item(Setting(name, s[v + 1..end]), SkipSeparator(s[end + 1..]))
  {
    hide SkipSpace, SkipSeparator, Span;
    Slices(s, v, v + 2, end);
    if end < |s| {
      Slices(s, v, v + 1, end);
      Slices(s, v, end + 1, |s|);
    }
  }

  // ----- what is read of a setting

  ghost predicate Blanks(w: string) {
    forall i :: 0 <= i < |w| ==> w[i] == ' ' || w[i] == '\t'
  }

  /** A name or a value that needs no quotes. */
  ghost predicate Word(s: string) {
    s != [] && forall i :: 0 <= i < |s| ==>
      !IsSpace(s[i]) && s[i] != ':' && s[i] != '=' && s[i] != ',' && s[i] != ';'
  }

  lemma Printable(c: char)
    ensures '!' <= c <= '~' ==> !IsSpace(c)
    ensures c == ' ' || c == '\t' || c == '\n' || c == '\r' ==> IsSpace(c)
  {
  }

  /** The end of a text, or a separator and more text. */
  ghost predicate Ending(t: string, rest: string) {
    (t == [] && rest == []) || t == [';'] + rest || t == [','] + rest
  }

  lemma SkipBlanks(w: string, t: string)
    requires Blanks(w) && (t == [] || !IsSpace(t[0]))
    ensures SkipSpace(w + t) == t
  {
    SpanIs(w + t, |w|, NotSpace());
  }

  lemma {:induction false} TrimBlanks(name: string, w: string)
    requires Blanks(w) && name != [] && !IsSpace(name[|name| - 1])
    ensures TrimEnd(name + w) == name
  {
    if w == [] {
      assert name + w == name;
    } else {
      assert (name + w)[..|name + w| - 1] == name + w[..|w| - 1];
      TrimBlanks(name, w[..|w| - 1]);
    }
  }

  lemma EndingIs(t: string, rest: string)
    requires Ending(t, rest)
    ensures t == [] || (!IsSpace(t[0]) && IsSeparator(t[0]) && t[1..] == rest)
  {
  }

  lemma SkipEnding(w: string, t: string, rest: string)
    requires Blanks(w) && Ending(t, rest)
    ensures SkipSeparator(w + t) == SkipSpace(rest)
  {
    hide Span;
    EndingIs(t, rest);
    SkipBlanks(w, t);
  }

  /** The name is what comes before the mark but for blanks on both sides. */
  lemma NameReads(w: string, name: string, x: string, mark: char, after: string)
    requires Blanks(w) && Word(name) && Blanks(x) && (mark == ':' || mark == '=')
    ensures Next(w + (name + x + [mark] + after)) == ItemWith(name, mark == ':', after)
  {
    hide SkipSpace, Span, TrimEnd, ColonItem, AssignItem, Next;
    var head := name + x;
    var p := head + [mark] + after;
    assert p[0] == name[0] && p[..|head|] == head && p[|head|] == mark && p[|head| + 1..] == after;
    SkipBlanks(w, p);
    SpanIs(p, |head|, Mark());
    TrimBlanks(name, x);
    IsNext(w + p, p, |head|);
  }

  lemma ColonReads(name: string, y: string, value: string, z: string, t: string, rest: string)
    requires Blanks(y) && Word(value) && Blanks(z) && Ending(t, rest)
    ensures ColonItem(name, y + (value + (z + t))) == Item(Setting(name, value), SkipSpace(rest))
  {
    hide SkipSpace, SkipSeparator, Span;
    var end := z + t;
    var v := value + end;
    EndingIs(t, rest);
    assert end != [] ==> ValueEnd()(end[0]);
    SkipBlanks(y, v);
    assert v[1..] == value[1..] + end && v[..|value|] == value && v[|value|..] == end;
    SpanIs(v[1..], |value| - 1, ValueEnd());
    SkipEnding(z, t, rest);
  }

  lemma QuotedReads(name: string, y: string, quote: char, value: string, z: string, t: string, rest: string)
    requires Blanks(y) && !IsSpace(quote) && value != [] && quote !in value[1..] && Blanks(z) && Ending(t, rest)
    ensures AssignItem(name, y + ([quote] + value + [quote] + (z + t))) == Item(Setting(name, value), SkipSpace(rest))
  {
    hide SkipSpace, SkipSeparator, Span, AssignItem;
    var end := z + t;
    var v := [quote] + value + [quote] + end;
    SkipBlanks(y, v);
    AssignIs(name, y + v);
    var k := |value| - 1;
    assert v[2..] == value[1..] + [quote] + end && v[0] == quote;
    forall i | 0 <= i < k ensures v[2..][i] != quote {
      assert v[2..][i] == value[1..][i];
    }
    SpanIs(v[2..], k, Is(quote));
    assert v[1..QuoteAt(v)] == value && v[QuoteAt(v) + 1..] == end;
    SkipEnding(z, t, rest);
  }

  /** Settings as one writes them: blanks around the name and the value do not belong to them; a semicolon or a comma,
      or the end of the text, follows. A value in quotes can have any characters but the quote, and its first one can
      even be that. */
  lemma Reads(w: string, name: string, x: string, y: string, value: string, z: string, t: string, rest: string)
    requires Blanks(w) && Word(name) && Blanks(x) && Blanks(y) && Blanks(z) && Ending(t, rest)
    ensures Word(value) ==>
      var s := w + (name + x + [':'] + (y + (value + (z + t))));
      Settings(s) == [Setting(name, value)] + Settings(rest) && Outcome(s) == Outcome(rest)
    ensures forall q :: !IsSpace(q) && value != [] && q !in value[1..] ==>
      var s := w + (name + x + ['='] + (y + ([q] + value + [q] + (z + t))));
      Settings(s) == [Setting(name, value)] + Settings(rest) && Outcome(s) == Outcome(rest)
  {
    hide SkipSpace, Next, ColonItem, AssignItem, Settings, Outcome, Blanks, Word, Ending;
    SettingsSkip(rest);
    if Word(value) {
      var s := w + (name + x + [':'] + (y + (value + (z + t))));
      NameReads(w, name, x, ':', y + (value + (z + t)));
      ColonReads(name, y, value, z, t, rest);
      SettingsStep(s);
    }
    forall q | !IsSpace(q) && value != [] && q !in value[1..]
      ensures var s := w + (name + x + ['='] + (y + ([q] + value + [q] + (z + t))));
        Settings(s) == [Setting(name, value)] + Settings(rest) && Outcome(s) == Outcome(rest)
    {
      var s := w + (name + x + ['='] + (y + ([q] + value + [q] + (z + t))));
      NameReads(w, name, x, '=', y + ([q] + value + [q] + (z + t)));
      QuotedReads(name, y, q, value, z, t, rest);
      SettingsStep(s);
    }
  }

  /** What cannot be read: a text without a mark, nothing in front of it, no value behind a colon, a value without its
      closing quote. */
  lemma Unreadable(w: string, name: string, y: string, t: string)
    requires Blanks(w) && Blanks(y)
    ensures Word(t) ==> Next(w + t) == Bad
    ensures Next(w + ([':'] + t)) == Bad && Next(w + (['='] + t)) == Bad
    ensures Word(name) && (t == [] || t[0] == ';' || t[0] == ',') ==> Next(w + (name + [] + [':'] + (y + t))) == Bad
    ensures Word(name) && |t| >= 2 && !IsSpace(t[0]) && t[0] !in t[2..] ==>
      Next(w + (name + [] + ['='] + (y + t))) == Bad
  {
    hide SkipSpace, Span, ColonItem, AssignItem;
    if Word(t) {
      SkipBlanks(w, t);
      SpanIs(t, |t|, Mark());
    }
    NoName(w, ':', t);
    NoName(w, '=', t);
    if Word(name) && (t == [] || t[0] == ';' || t[0] == ',') {
      NameReads(w, name, [], ':', y + t);
      SkipBlanks(y, t);
      ColonBad(name, y + t);
    }
    if Word(name) && |t| >= 2 && !IsSpace(t[0]) && t[0] !in t[2..] {
      NameReads(w, name, [], '=', y + t);
      SkipBlanks(y, t);
      SpanIs(t[2..], |t| - 2, Is(t[0]));
      AssignIs(name, y + t);
    }
  }

  lemma NoName(w: string, mark: char, t: string)
    requires Blanks(w) && (mark == ':' || mark == '=')
    ensures Next(w + ([mark] + t)) == Bad
  {
    var p := [mark] + t;
    SkipBlanks(w, p);
    SpanIs(p, 0, Mark());
  }

  // ----- texts joined by semicolons

  lemma SpanJoin(a: string, t: string, stop: char -> bool)
    ensures Span(a + t, stop) == if Span(a, stop) < |a| then Span(a, stop) else |a| + Span(t, stop)
  {
    SpanIs(a + t, if Span(a, stop) < |a| then Span(a, stop) else |a| + Span(t, stop), stop);
  }

  lemma SkipJoin(a: string, t: string)
    ensures SkipSpace(a + t) == if SkipSpace(a) != [] then SkipSpace(a) + t else SkipSpace(t)
  {
    SpanJoin(a, t, NotSpace());
  }

  lemma FirstKept(s: string)
    ensures SkipSpace(SkipSpace(s)) == SkipSpace(s)
  {
    var t := SkipSpace(s);
    SpanIs(t, 0, NotSpace());
  }

  /** A text behind a semicolon. */
  ghost function Semi(b: string): string {
    [';'] + b
  }

  lemma SemicolonStays(b: string)
    ensures SkipSpace(Semi(b)) == Semi(b) && Span(Semi(b), ValueEnd()) == 0
    ensures Semi(b) != [] && Semi(b)[0] == ';' && Semi(b)[1..] == b
  {
    SpanIs(Semi(b), 0, NotSpace());
    SpanIs(Semi(b), 0, ValueEnd());
  }

  lemma TailJoin(u: string, t: string)
    requires u != []
    ensures (u + t)[1..] == u[1..] + t && (u + t)[0] == u[0]
  {
  }

  /** A text of spaces, a separator and more spaces. */
  ghost predicate OnlySeparator(w: string) {
    var u := SkipSpace(w);
    u != [] && IsSeparator(u[0]) && SkipSpace(u[1..]) == []
  }

  /** What is left to read of a text in front of a semicolon and more. */
  ghost function Left(w: string, b: string): string {
    if OnlySeparator(w) then Semi(b) else if SkipSeparator(w) != [] then SkipSeparator(w) + Semi(b) else SkipSpace(b)
  }

  lemma SeparatorJoin(w: string, b: string)
    ensures SkipSeparator(w + Semi(b)) == Left(w, b)
  {
    hide SkipSpace, Semi, Span;
    SemicolonStays(b);
    SkipJoin(w, Semi(b));
    var u := SkipSpace(w);
    if u != [] {
      TailJoin(u, Semi(b));
      SkipJoin(u[1..], Semi(b));
    }
  }

  lemma ValueJoin(v: string, b: string)
    requires v != []
    ensures ValueLength(v + Semi(b)) == ValueLength(v)
    ensures (v + Semi(b))[..ValueLength(v)] == v[..ValueLength(v)]
    ensures (v + Semi(b))[ValueLength(v)..] == v[ValueLength(v)..] + Semi(b)
  {
    hide Semi, Span;
    SemicolonStays(b);
    SpanJoin(v[1..], Semi(b), ValueEnd());
    TailJoin(v, Semi(b));
    CutJoin(v, Semi(b), ValueLength(v));
  }

  lemma CutJoin(v: string, t: string, k: nat)
    requires k <= |v|
    ensures (v + t)[..k] == v[..k] && (v + t)[k..] == v[k..] + t
  {
  }

  /** What follows the value of a colon-form setting. */
  ghost function BehindValue(after: string): string {
    var v := SkipSpace(after);
    if v == [] then [] else v[ValueLength(v)..]
  }

  lemma ColonJoin(name: string, after: string, b: string)
    requires ColonItem(name, after).Item?
    ensures ColonItem(name, after + Semi(b)) == Item(ColonItem(name, after).setting, Left(BehindValue(after), b))
    ensures ColonItem(name, after).rest == SkipSeparator(BehindValue(after))
  {
    hide SkipSpace, SkipSeparator, OnlySeparator, ValueLength, Semi, Left, Span;
    SkipJoin(after, Semi(b));
    var v := SkipSpace(after);
    if v != [] {
      ValueJoin(v, b);
      TailJoin(v, Semi(b));
      SeparatorJoin(v[ValueLength(v)..], b);
    }
  }

  /** The place of the closing quote in a text that begins with the opening one. */
  ghost function QuoteAt(v: string): (k: nat)
    requires |v| >= 2
    ensures 2 <= k <= |v|
  {
    2 + Span(v[2..], Is(v[0]))
  }

  /** What follows the closing quote of an assign-form setting. */
  ghost function BehindQuote(after: string): string {
    var v := SkipSpace(after);
    if |v| < 2 || QuoteAt(v) == |v| then [] else v[QuoteAt(v) + 1..]
  }

  lemma AssignIs(name: string, after: string)
    ensures var v := SkipSpace(after);
      AssignItem(name, after) ==
        if v == [] then Bad else if |v| == 1 then Overrun
        else if QuoteAt(v) == |v| then Bad
        else Item(Setting(name, v[1..QuoteAt(v)]), SkipSeparator(v[QuoteAt(v) + 1..]))
  {
    hide SkipSpace, SkipSeparator, Span;
  }

  lemma QuoteJoin(v: string, t: string)
    requires |v| >= 2 && QuoteAt(v) < |v|
    ensures QuoteAt(v + t) == QuoteAt(v)
    ensures (v + t)[1..QuoteAt(v)] == v[1..QuoteAt(v)] && (v + t)[QuoteAt(v) + 1..] == v[QuoteAt(v) + 1..] + t
  {
    hide Span;
    SpanJoin(v[2..], t, Is(v[0]));
    assert (v + t)[2..] == v[2..] + t && (v + t)[0] == v[0];
  }

  lemma AssignJoin(name: string, after: string, b: string)
    requires AssignItem(name, after).Item?
    ensures AssignItem(name, after + Semi(b)) == Item(AssignItem(name, after).setting, Left(BehindQuote(after), b))
    ensures AssignItem(name, after).rest == SkipSeparator(BehindQuote(after))
  {
    hide SkipSpace, SkipSeparator, OnlySeparator, Semi, Left, Span, AssignItem, QuoteAt;
    SkipJoin(after, Semi(b));
    AssignIs(name, after);
    AssignIs(name, after + Semi(b));
    var v := SkipSpace(after);
    QuoteJoin(v, Semi(b));
    SeparatorJoin(v[QuoteAt(v) + 1..], b);
  }

  /** The place of the mark behind the first name. */
  ghost function MarkAt(p: string): nat {
    Span(p, Mark())
  }

  /** The text behind the mark of the first setting. */
  ghost function AfterMark(s: string): string {
    var p := SkipSpace(s);
    if MarkAt(p) < |p| then p[MarkAt(p) + 1..] else []
  }

  /** The first mark of a text is a colon. */
  ghost predicate ColonFirst(s: string) {
    var p := SkipSpace(s);
    MarkAt(p) < |p| && p[MarkAt(p)] == ':'
  }

  /** What follows the first setting of a text, before any separator. */
  ghost function Behind(s: string): string {
    if ColonFirst(s) then BehindValue(AfterMark(s)) else BehindQuote(AfterMark(s))
  }

  /** A setting with either mark. */
  ghost function ItemWith(name: string, colon: bool, after: string): Step {
    if colon then ColonItem(name, after) else AssignItem(name, after)
  }

  lemma FirstIs(s: string)
    requires Next(s).Item?
    ensures var p := SkipSpace(s);
      && MarkAt(p) < |p| && TrimEnd(p[..MarkAt(p)]) != [] && AfterMark(s) == p[MarkAt(p) + 1..]
      && (ColonFirst(s) <==> p[MarkAt(p)] == ':')
      && Next(s) == ItemWith(TrimEnd(p[..MarkAt(p)]), ColonFirst(s), AfterMark(s))
  {
    hide SkipSpace, Span, ColonItem, AssignItem, TrimEnd;
  }

  lemma IsNext(s: string, p: string, mark: nat)
    requires p == SkipSpace(s) && mark == MarkAt(p) < |p| && TrimEnd(p[..mark]) != []
    ensures Next(s) == ItemWith(TrimEnd(p[..mark]), p[mark] == ':', p[mark + 1..])
  {
    hide SkipSpace, Span, ColonItem, AssignItem, TrimEnd;
  }

  lemma Cut(p: string, t: string, mark: nat)
    requires mark < |p|
    ensures (p + t)[..mark] == p[..mark] && (p + t)[mark + 1..] == p[mark + 1..] + t && (p + t)[mark] == p[mark]
  {
  }

  /** A text that begins with a setting still does with more text behind it and a semicolon in between. */
  lemma NextJoin(a: string, b: string)
    requires Next(a).Item?
    ensures Next(a).rest == SkipSeparator(Behind(a))
    ensures Next(a + Semi(b)) == Item(Next(a).setting, Left(Behind(a), b))
  {
    hide SkipSpace, SkipSeparator, Span, ColonItem, AssignItem, Left, BehindValue, BehindQuote, TrimEnd, Semi, Next,
      MarkAt, AfterMark, ColonFirst;
    FirstIs(a);
    var p := SkipSpace(a);
    SkipJoin(a, Semi(b));
    MarkJoin(p, Semi(b));
    Cut(p, Semi(b), MarkAt(p));
    IsNext(a + Semi(b), p + Semi(b), MarkAt(p));
    var name, after := TrimEnd(p[..MarkAt(p)]), p[MarkAt(p) + 1..];
    if ColonFirst(a) {
      ColonJoin(name, after, b);
    } else {
      AssignJoin(name, after, b);
    }
  }

  lemma MarkJoin(p: string, t: string)
    ensures MarkAt(p + t) == if MarkAt(p) < |p| then MarkAt(p) else |p| + MarkAt(t)
    ensures MarkAt(p) <= |p|
  {
    hide Span;
    SpanJoin(p, t, Mark());
  }

  /** Nothing but spaces, or a separator behind the last setting. */
  ghost predicate Loose(s: string)
    decreases |s|
  {
    Next(s).Item? ==> if Next(s).rest == [] then OnlySeparator(Behind(s)) else Loose(Next(s).rest)
  }

  lemma LooseStep(s: string)
    ensures !Next(s).Item? ==> Loose(s)
    ensures Next(s).Item? ==>
      (Loose(s) <==> if Next(s).rest == [] then OnlySeparator(Behind(s)) else Loose(Next(s).rest))
  {
    hide Next, Behind, OnlySeparator;
  }

  lemma SettingsSkip(s: string)
    ensures Settings(SkipSpace(s)) == Settings(s) && Outcome(SkipSpace(s)) == Outcome(s)
  {
    hide SkipSpace, ItemAt, Span;
    FirstKept(s);
  }

  /** What is left when the first text is used up, or is not yet. */
  lemma LeftIs(w: string, b: string)
    ensures OnlySeparator(w) ==> SkipSeparator(w) == [] && Left(w, b) == Semi(b)
    ensures !OnlySeparator(w) ==> Left(w, b) == if SkipSeparator(w) != [] then SkipSeparator(w) + Semi(b)
      else SkipSpace(b)
  {
    hide SkipSpace, Semi;
  }

  lemma NothingToRead()
    ensures Settings([]) == [] && Outcome([]) == End
  {
  }

  lemma SettingsStep(s: string)
    ensures !Next(s).Item? ==> Settings(s) == [] && Outcome(s) == Next(s)
    ensures Next(s).Item? ==>
      Settings(s) == [Next(s).setting] + Settings(Next(s).rest) && Outcome(s) == Outcome(Next(s).rest)
  {
    hide Next;
  }

  lemma EndIs(s: string)
    ensures Next(s) == End <==> SkipSpace(s) == []
  {
    hide SkipSpace, ItemAt, Span;
  }

  /** A text that can be read, joined to more text by a semicolon, is read as if each text were read in turn, unless
      it is blank or a separator follows its last setting; then the second text is read with the semicolon in
      front. */
  lemma {:induction false} Joined(a: string, b: string)
    requires Outcome(a) == End
    ensures Settings(a + Semi(b)) == Settings(a) + if Loose(a) then Settings(Semi(b)) else Settings(b)
    ensures Outcome(a + Semi(b)) == if Loose(a) then Outcome(Semi(b)) else Outcome(b)
    decreases |a|
  {
    hide SkipSpace, SkipSeparator, Span, Next, Behind, OnlySeparator, Semi, Left, Settings, Outcome, Loose;
    SettingsStep(a);
    LooseStep(a);
    if !Next(a).Item? {
      EndIs(a);
      SkipJoin(a, Semi(b));
      SemicolonStays(b);
      SettingsSkip(a + Semi(b));
    } else {
      NextJoin(a, b);
      LeftIs(Behind(a), b);
      SettingsStep(a + Semi(b));
      if Next(a).rest == [] {
        NothingToRead();
        SettingsSkip(b);
      } else {
        Joined(Next(a).rest, b);
      }
    }
  }

  lemma {:induction false} TrimJoin(x: string, y: string)
    ensures TrimEnd(x + y) == if TrimEnd(y) != [] then x + TrimEnd(y) else TrimEnd(x)
  {
    TrimStep(y);
    TrimStep(x + y);
    if y == [] {
      assert x + y == x;
    } else {
      assert (x + y)[|x + y| - 1] == y[|y| - 1] && (x + y)[..|x + y| - 1] == x + y[..|y| - 1];
      if IsSpace(y[|y| - 1]) {
        TrimJoin(x, y[..|y| - 1]);
      }
    }
  }

  lemma SkipSplit(s: string)
    ensures s == s[..Span(s, NotSpace())] + SkipSpace(s)
  {
  }

  lemma MarkBehind(b: string)
    ensures MarkAt(Semi(b)) == 1 + MarkAt(b)
    ensures MarkAt(b) == Span(b, NotSpace()) + MarkAt(SkipSpace(b)) <= |b|
  {
    hide SkipSpace, Span;
    var k := Span(b, NotSpace());
    SkipSplit(b);
    NoMarks(b);
    SpanJoin(b[..k], SkipSpace(b), Mark());
    SpanJoin([';'], b, Mark());
    SpanIs([';'], 1, Mark());
  }

  lemma TrimLength(x: string, y: string)
    ensures TrimEnd([';'] + (x + y)) != []
    ensures TrimEnd(y) != [] ==> |TrimEnd([';'] + (x + y))| == 1 + |x| + |TrimEnd(y)|
  {
    hide TrimEnd;
    TrimJoin(x, y);
    TrimJoin([';'], x + y);
    SemicolonTrimmed();
  }

  lemma SemicolonTrimmed()
    ensures TrimEnd([';']) == [';']
  {
    NotSpaces(';');
  }

  lemma NotSpaces(c: char)
    ensures IsSeparator(c) ==> !IsSpace(c)
  {
  }

  lemma SkipIs(b: string)
    ensures SkipSpace(b) == b[Span(b, NotSpace())..] && Span(b, NotSpace()) <= |b|
  {
  }

  lemma NameOf(name: string, colon: bool, after: string)
    ensures ItemWith(name, colon, after).Item? ==> ItemWith(name, colon, after).setting.name == name
  {
    hide Span, SkipSpace;
  }

  lemma NoMarks(b: string)
    ensures Span(b[..Span(b, NotSpace())], Mark()) == Span(b, NotSpace()) <= |b|
  {
    var k := Span(b, NotSpace());
    SpanIs(b[..k], k, Mark());
  }

  lemma AnyName(n: string, m: string, colon: bool, after: string)
    ensures ItemWith(n, colon, after).Item? <==> ItemWith(m, colon, after).Item?
  {
    hide Span, SkipSpace;
  }

  /** A value can be read behind the first mark of a text. */
  ghost predicate ValueAfterMark(b: string) {
    MarkAt(b) < |b| && ItemWith([], b[MarkAt(b)] == ':', b[MarkAt(b) + 1..]).Item?
  }

  /** The name of the first setting of a text. */
  ghost function FirstName(s: string): string {
    match Next(s)
    case Item(setting, _) => setting.name
    case _ => []
  }

  /** With a semicolon in front, the text before the first mark is a name. */
  lemma SemiNext(b: string)
    ensures Next(Semi(b)).Item? <==> ValueAfterMark(b)
    ensures ValueAfterMark(b) ==> FirstName(Semi(b)) == TrimEnd([';'] + b[..MarkAt(b)])
  {
    hide Span, SkipSpace, ItemWith, TrimEnd, Semi, MarkAt, Next;
    SemicolonStays(b);
    MarkBehind(b);
    SemiParts(b, MarkAt(b));
    if MarkAt(b) == |b| {
      MarkNext(Semi(b));
    } else {
      TrimLength([], b[..MarkAt(b)]);
      assert [] + b[..MarkAt(b)] == b[..MarkAt(b)];
      var name := TrimEnd([';'] + b[..MarkAt(b)]);
      IsNext(Semi(b), Semi(b), 1 + MarkAt(b));
      AnyName(name, [], b[MarkAt(b)] == ':', b[MarkAt(b) + 1..]);
      NameOf(name, b[MarkAt(b)] == ':', b[MarkAt(b) + 1..]);
    }
  }

  lemma SemiParts(b: string, m: nat)
    requires m <= |b|
    ensures Semi(b)[..1 + m] == [';'] + b[..m] && |Semi(b)| == 1 + |b|
    ensures m < |b| ==> Semi(b)[1 + m] == b[m] && Semi(b)[2 + m..] == b[m + 1..]
  {
  }

  lemma MarkNext(s: string)
    ensures MarkAt(SkipSpace(s)) == |SkipSpace(s)| ==> !Next(s).Item?
  {
    hide Span, SkipSpace;
  }

  /** A text that begins with a setting also does with a semicolon in front; the name is longer then. */
  lemma LongerName(b: string)
    requires Next(b).Item?
    ensures ValueAfterMark(b) && |FirstName(Semi(b))| > |FirstName(b)|
  {
    hide SkipSpace, Span, TrimEnd, Next, Semi, MarkAt, ItemWith, AfterMark, ColonFirst, NotSpace;
    var k, p := Span(b, NotSpace()), SkipSpace(b);
    var m := MarkAt(p);
    SkipIs(b);
    FirstIs(b);
    MarkBehind(b);
    TailParts(b, k, m);
    AnyName([], TrimEnd(p[..m]), p[m] == ':', p[m + 1..]);
    NameOf(TrimEnd(p[..m]), p[m] == ':', p[m + 1..]);
    SemiNext(b);
    TrimLength(b[..k], p[..m]);
  }

  lemma TailParts(b: string, k: nat, m: nat)
    requires k + m < |b|
    ensures var p := b[k..];
      b[k + m] == p[m] && b[k + m + 1..] == p[m + 1..] && b[..k + m] == b[..k] + p[..m]
  {
  }

  lemma DifferentTails<T>(s: seq<T>, x: seq<T>, y: seq<T>)
    requires x != [] && y != [] && x[0] != y[0]
    ensures s + x != s + y
  {
    assert (s + x)[|s|] == x[0] && (s + y)[|s|] == y[0];
  }

  lemma SameTails<T>(s: seq<T>, x: seq<T>, y: seq<T>)
    ensures s + x == s + y <==> x == y
  {
    assert (s + x)[|s|..] == x && (s + y)[|s|..] == y;
  }

  /** Joining a text that can be read to another one is harmless exactly when it is neither blank nor ends in a
      separator, or no value can be read behind the first mark of the second text. */
  lemma JoinedExactly(a: string, b: string)
    requires Outcome(a) == End
    ensures Settings(a + Semi(b)) == Settings(a) + Settings(b) <==> !Loose(a) || !ValueAfterMark(b)
  {
    hide Next, Settings, Semi, Loose, ValueAfterMark, Outcome;
    Joined(a, b);
    SemiNext(b);
    SettingsStep(b);
    SettingsStep(Semi(b));
    if Next(b).Item? {
      LongerName(b);
      if Loose(a) {
        DifferentTails(Settings(a), Settings(Semi(b)), Settings(b));
      }
    }
  }

  // ----- a separator at the end

  ghost predicate EndsInSeparator(s: string) {
    TrimEnd(s) != [] && IsSeparator(TrimEnd(s)[|TrimEnd(s)| - 1])
  }

  lemma EndOf(x: string, y: string)
    ensures TrimEnd(y) != [] ==> (EndsInSeparator(x + y) <==> EndsInSeparator(y))
    ensures TrimEnd(y) == [] ==> (EndsInSeparator(x + y) <==> EndsInSeparator(x))
  {
    hide TrimEnd;
    TrimJoin(x, y);
  }

  lemma {:induction false} SpacesTrimmed(w: string)
    ensures SkipSpace(w) == [] <==> TrimEnd(w) == []
  {
    hide SkipSpace, TrimEnd, Span, IsSpace;
    TrimStep(w);
    SkipNone([]);
    if w != [] {
      var u, c := w[..|w| - 1], w[|w| - 1];
      assert w == u + [c];
      SkipJoin(u, [c]);
      SkipOne(c);
      SpacesTrimmed(u);
    }
  }

  lemma SkipOne(c: char)
    ensures SkipSpace([c]) == if IsSpace(c) then [] else [c]
  {
    hide SkipSpace;
    SkipStep([c], 0);
    assert [c][0..] == [c] && [c][1..] == [];
    SkipNone([]);
  }

  lemma SkipNone(s: string)
    requires s == [] || !IsSpace(s[0])
    ensures SkipSpace(s) == s
  {
    SpanIs(s, 0, NotSpace());
  }

  lemma SeparatorEnds(w: string)
    ensures OnlySeparator(w) ==> TrimEnd(w) != [] && EndsInSeparator(w)
    ensures !OnlySeparator(w) && SkipSeparator(w) == [] ==> TrimEnd(w) == []
  {
    hide SkipSpace, Span, TrimEnd;
    SpacesTrimmed(w);
    SkipSplit(w);
    var u := SkipSpace(w);
    if OnlySeparator(w) {
      SpacesTrimmed(u[1..]);
      TrimStep([u[0]]);
      NotSpaces(u[0]);
      assert u == [u[0]] + u[1..];
      TrimJoin([u[0]], u[1..]);
      TrimJoin(w[..Span(w, NotSpace())], u);
    }
  }

  /** What is left begins somewhere in the text. */
  lemma SeparatorSplit(w: string) returns (x: string)
    ensures w == x + SkipSeparator(w)
  {
    hide Span, SkipSpace;
    SkipSplit(w);
    var u := SkipSpace(w);
    x := w[..Span(w, NotSpace())];
    if u != [] && IsSeparator(u[0]) {
      SkipSplit(u[1..]);
      var y := u[1..][..Span(u[1..], NotSpace())];
      Assembled(w, x, u, [u[0]], u[1..], y, SkipSpace(u[1..]));
      x := x + ([u[0]] + y);
    }
  }

  lemma Assembled(w: string, x: string, u: string, c: string, d: string, y: string, z: string)
    requires w == x + u && u == c + d && d == y + z
    ensures w == (x + (c + y)) + z
  {
  }

  /** The first setting has a separator for its quote. */
  ghost predicate SeparatorQuote(s: string) {
    !ColonFirst(s) && SkipSpace(AfterMark(s)) != [] && IsSeparator(SkipSpace(AfterMark(s))[0])
  }

  /** The last setting has a separator for its quote, and nothing but spaces follow. */
  ghost predicate QuotedLast(s: string)
    decreases |s|
  {
    Next(s).Item? &&
    if Next(s).rest == [] then SeparatorQuote(s) && SkipSpace(Behind(s)) == [] else QuotedLast(Next(s).rest)
  }

  lemma QuotedStep(s: string)
    ensures QuotedLast(s) <==>
      Next(s).Item? &&
      if Next(s).rest == [] then SeparatorQuote(s) && SkipSpace(Behind(s)) == [] else QuotedLast(Next(s).rest)
  {
    hide Next, Behind, SeparatorQuote, SkipSpace;
  }

  /** The first setting ends in a separator only if that is its quote. */
  lemma ValueSplit(s: string) returns (head: string, value: string)
    requires Next(s).Item?
    ensures s == head + value + Behind(s) && value != []
    ensures !IsSpace(value[|value| - 1]) && (IsSeparator(value[|value| - 1]) <==> SeparatorQuote(s))
  {
    hide Span, SkipSpace, TrimEnd, Next, MarkAt, ColonItem, AssignItem, BehindValue, BehindQuote, ValueLength,
      AfterMark, ColonFirst, IsSpace, IsSeparator;
    FirstIs(s);
    var p, after := SkipSpace(s), AfterMark(s);
    if ColonFirst(s) {
      value := LastOfValue(TrimEnd(p[..MarkAt(p)]), after);
    } else {
      value := LastOfQuoted(TrimEnd(p[..MarkAt(p)]), after);
    }
    head := HeadOf(s);
    assert (head + value) + Behind(s) == head + (value + Behind(s));
  }

  /** All that comes before the first value. */
  lemma HeadOf(s: string) returns (head: string)
    requires Next(s).Item?
    ensures s == head + SkipSpace(AfterMark(s))
  {
    hide Span, SkipSpace, TrimEnd, Next, MarkAt, ColonItem, AssignItem, AfterMark, ColonFirst;
    FirstIs(s);
    var p, after := SkipSpace(s), AfterMark(s);
    SkipSplit(s);
    SkipSplit(after);
    var x, y := s[..Span(s, NotSpace())], after[..Span(after, NotSpace())];
    CutAt(p, MarkAt(p) + 1);
    Assembled(s, x, p, p[..MarkAt(p) + 1], after, y, SkipSpace(after));
    head := x + (p[..MarkAt(p) + 1] + y);
  }

  lemma CutAt(p: string, m: nat)
    requires m <= |p|
    ensures p == p[..m] + p[m..]
  {
  }

  lemma LastOfValue(name: string, after: string) returns (value: string)
    requires ColonItem(name, after).Item?
    ensures SkipSpace(after) == value + BehindValue(after) && value != []
    ensures !IsSpace(value[|value| - 1]) && !IsSeparator(value[|value| - 1])
  {
    hide SkipSpace, SkipSeparator, Span;
    var v := SkipSpace(after);
    FirstNotSpace(after);
    value := v[..ValueLength(v)];
    CutAt(v, ValueLength(v));
    if |value| > 1 {
      assert value[|value| - 1] == v[1..][|value| - 2];
    }
  }

  lemma LastOfQuoted(name: string, after: string) returns (value: string)
    requires AssignItem(name, after).Item?
    ensures SkipSpace(after) == value + BehindQuote(after) && value != []
    ensures value[|value| - 1] == SkipSpace(after)[0] && !IsSpace(value[|value| - 1])
  {
    hide SkipSpace, SkipSeparator, Span, AssignItem;
    var v := SkipSpace(after);
    AssignIs(name, after);
    FirstNotSpace(after);
    value := v[..QuoteAt(v) + 1];
    CutAt(v, QuoteAt(v) + 1);
    assert v[QuoteAt(v)] == v[2..][QuoteAt(v) - 2];
  }

  lemma FirstNotSpace(s: string)
    ensures SkipSpace(s) != [] ==> !IsSpace(SkipSpace(s)[0])
  {
  }

  /** In terms of the characters: a text that can be read is blank or ends in a separator, without the spaces at its
      end, that is not the closing quote of its last setting. */
  lemma {:induction false} LooseEnds(a: string)
    requires Outcome(a) == End
    ensures Loose(a) <==> TrimEnd(a) == [] || (EndsInSeparator(a) && !QuotedLast(a))
    decreases |a|
  {
    hide SkipSpace, SkipSeparator, Span, Next, Behind, OnlySeparator, TrimEnd, EndsInSeparator, SeparatorQuote,
      Loose, QuotedLast, Outcome;
    SettingsStep(a);
    LooseStep(a);
    QuotedStep(a);
    EndIs(a);
    SpacesTrimmed(a);
    if Next(a).Item? {
      NextJoin(a, []);
      var w, rest := Behind(a), Next(a).rest;
      var head, value := ValueSplit(a);
      if rest == [] {
        SeparatorEnds(w);
        SpacesTrimmed(w);
        EndOf(head + value, w);
        EndOf(head, value);
        ValueEnds(value);
      } else {
        LooseEnds(rest);
        var x := SeparatorSplit(w);
        assert a == head + value + x + rest;
        RestNotBlank(w);
        EndOf(head + value + x, rest);
      }
    }
  }

  lemma ValueEnds(value: string)
    requires value != [] && !IsSpace(value[|value| - 1])
    ensures TrimEnd(value) == value && (EndsInSeparator(value) <==> IsSeparator(value[|value| - 1]))
  {
  }

  lemma RestNotBlank(w: string)
    ensures SkipSeparator(w) != [] ==> TrimEnd(SkipSeparator(w)) != []
  {
    hide TrimEnd, Span, SkipSpace;
    var t := SkipSpace(w);
    FirstKept(w);
    if t != [] {
      FirstKept(t[1..]);
    }
    SpacesTrimmed(SkipSeparator(w));
  }

  // ----- many texts

  ghost function JoinAll(texts: seq<string>): string
    requires texts != []
  {
    if |texts| == 1 then texts[0] else texts[0] + Semi(JoinAll(texts[1..]))
  }

  ghost function SettingsAll(texts: seq<string>): seq<Setting> {
    if texts == [] then [] else Settings(texts[0]) + SettingsAll(texts[1..])
  }

  /** All texts but perhaps the last can be read. */
  ghost predicate AllReadable(texts: seq<string>) {
    forall i :: 0 <= i < |texts| - 1 ==> Outcome(texts[i]) == End
  }

  /** A text that is blank or ends in a separator comes before others with a value behind their first mark. */
  ghost predicate Spoilt(texts: seq<string>, i: int) {
    0 <= i < |texts| - 1 && Loose(texts[i]) && ValueAfterMark(JoinAll(texts[i + 1..]))
  }

  lemma JoinAllIs(texts: seq<string>)
    requires texts != []
    ensures |texts| == 1 ==> JoinAll(texts) == texts[0] && SettingsAll(texts) == Settings(texts[0])
    ensures |texts| > 1 ==> JoinAll(texts) == texts[0] + Semi(JoinAll(texts[1..]))
    ensures SettingsAll(texts) == Settings(texts[0]) + SettingsAll(texts[1..])
  {
    hide Settings;
    assert |texts| == 1 ==> texts[1..] == [] && SettingsAll([]) == [];
  }

  /** A mark behind a blank text and a semicolon is the mark behind the semicolon alone; the name gets longer. */
  lemma BlankFirst(t: string, b: string)
    requires SkipSpace(t) == [] && ValueAfterMark(t + Semi(b))
    ensures ValueAfterMark(b)
    ensures |FirstName(Semi(b))| <= |FirstName(Semi(t + Semi(b)))|
  {
    hide *;
    var s, m := t + Semi(b), MarkAt(b);
    BlankValue(t, b);
    BlankMark(t, b);
    BlankParts(t, b, m);
    SemiNext(b);
    SemiNext(s);
    TrimLonger(t, b[..m]);
    assert s[..MarkAt(s)] == t + ([';'] + b[..m]);
  }

  lemma BlankValue(t: string, b: string)
    requires SkipSpace(t) == [] && ValueAfterMark(t + Semi(b))
    ensures ValueAfterMark(b)
  {
    hide Span, SkipSpace, ItemWith, Semi, MarkAt;
    BlankMark(t, b);
    BlankParts(t, b, MarkAt(b));
  }

  lemma TrimLonger(t: string, u: string)
    ensures |TrimEnd([';'] + u)| <= |TrimEnd([';'] + (t + ([';'] + u)))|
  {
    hide TrimEnd;
    TrimLength([], u);
    assert [] + u == u;
    TrimLength(t, [';'] + u);
  }

  lemma BlankMark(t: string, b: string)
    requires SkipSpace(t) == []
    ensures MarkAt(t + Semi(b)) == |t| + 1 + MarkAt(b) && MarkAt(b) <= |b|
  {
    hide Span, SkipSpace, Semi, MarkAt;
    SkipSplit(t);
    NoMarks(t);
    assert t[..Span(t, NotSpace())] == t;
    MarkWhole(t);
    MarkJoin(t, Semi(b));
    MarkBehind(b);
  }

  lemma BlankParts(t: string, b: string, m: nat)
    requires m <= |b|
    ensures var s := t + Semi(b);
      && |s| == |t| + 1 + |b| && s[..|t| + 1 + m] == t + ([';'] + b[..m])
      && (m < |b| ==> s[|t| + 1 + m] == b[m] && s[|t| + 1 + m + 1..] == b[m + 1..])
  {
  }

  lemma MarkWhole(t: string)
    ensures Span(t, Mark()) == MarkAt(t)
  {
  }

  /** The first name in a list of texts is shorter than the one read behind a semicolon in front of all. */
  lemma {:induction false} LongerFirst(texts: seq<string>)
    requires texts != [] && AllReadable(texts) && ValueAfterMark(JoinAll(texts)) && SettingsAll(texts) != []
    ensures |SettingsAll(texts)[0].name| < |FirstName(Semi(JoinAll(texts)))|
  {
    hide Next, Settings, SettingsAll, JoinAll, Semi, ValueAfterMark, Outcome, SkipSpace;
    var t, rest := texts[0], texts[1..];
    JoinAllIs(texts);
    SettingsStep(t);
    if Next(t).Item? {
      LongerName(t);
      if |texts| > 1 {
        SemiNext(t);
        NextJoin(Semi(t), JoinAll(rest));
        SemiSemi(t, JoinAll(rest));
      }
    } else {
      assert rest != [] by {
        assert |texts| == 1 ==> SettingsAll(texts) == [];
      }
      EndIs(t);
      BlankFirst(t, JoinAll(rest));
      assert SettingsAll(texts) == SettingsAll(rest);
      assert forall i :: 0 <= i < |rest| - 1 ==> rest[i] == texts[i + 1];
      LongerFirst(rest);
    }
  }

  lemma SemiSemi(t: string, b: string)
    ensures Semi(t) + Semi(b) == Semi(t + Semi(b))
  {
  }

  /** Texts that can be read, joined by semicolons, are read as if each were read in turn exactly when none that is
      blank or ends in a separator comes before others with a value behind their first mark. */
  lemma {:induction false} JoinedAll(texts: seq<string>)
    requires texts != [] && AllReadable(texts)
    ensures Settings(JoinAll(texts)) == SettingsAll(texts) <==> forall i :: !Spoilt(texts, i)
  {
    hide Next, Settings, SettingsAll, JoinAll, Semi, ValueAfterMark, Outcome, Loose;
    JoinAllIs(texts);
    if |texts| > 1 {
      var t, rest := texts[0], texts[1..];
      var b := JoinAll(rest);
      assert forall i :: 0 <= i < |rest| ==> rest[i] == texts[i + 1] && texts[1..][i + 1..] == texts[i + 2..];
      SpoiltRest(texts);
      JoinedAll(rest);
      Joined(t, b);
      SemiNext(b);
      SettingsStep(b);
      SettingsStep(Semi(b));
      assert Spoilt(texts, 0) <==> Loose(t) && ValueAfterMark(b);
      if Loose(t) && ValueAfterMark(b) {
        assert Settings(Semi(b)) != [];
        if SettingsAll(rest) != [] {
          LongerFirst(rest);
          DifferentTails(Settings(t), Settings(Semi(b)), SettingsAll(rest));
        } else {
          assert |SettingsAll(texts)| == |Settings(t)|;
        }
      } else {
        JoinedExactly(t, b);
        SameTails(Settings(t), Settings(b), SettingsAll(rest));
      }
    }
  }

  lemma SpoiltRest(texts: seq<string>)
    requires |texts| > 1
    ensures (forall i :: !Spoilt(texts, i)) <==>
      !Spoilt(texts, 0) && forall i :: !Spoilt(texts[1..], i)
  {
    hide Loose, ValueAfterMark, JoinAll;
    assert forall i :: 0 <= i < |texts| - 1 ==> texts[1..][i] == texts[i + 1] && texts[1..][i + 1..] == texts[i + 2..];
    forall i ensures Spoilt(texts[1..], i) <==> i >= 0 && Spoilt(texts, i + 1) {
    }
    if exists i :: Spoilt(texts, i) {
      var i :| Spoilt(texts, i);
      assert i > 0 ==> Spoilt(texts[1..], i - 1);
    }
  }

  // ----- texts that spoil others

  lemma ShortText(name: char, value: char)
    requires !IsSpace(name) && !Mark()(name) && !IsSpace(value) && !IsSeparator(value)
    ensures Next([name, ':', value]) == Item(Setting([name], [value]), [])
    ensures ValueAfterMark([name, ':', value]) && MarkAt([name, ':', value]) == 1
  {
    hide ItemWith;
    var s := [name, ':', value];
    SpanIs(s, 1, Mark());
    SkipNone(s);
    assert s[..1] == [name] && s[2..] == [value];
    OneValue([name], value);
    OneValue([], value);
    TrimStep([name]);
    IsNext(s, s, 1);
  }

  lemma OneValue(name: string, value: char)
    requires !IsSpace(value) && !IsSeparator(value)
    ensures ItemWith(name, true, [value]) == Item(Setting(name, [value]), [])
  {
    hide Span, SkipSpace, SkipSeparator;
    SkipNone([value]);
    SkipNone([]);
    assert [value][1..] == [];
    SpanIs([], 0, ValueEnd());
    NoSeparator();
  }

  lemma NoSeparator()
    ensures SkipSeparator([]) == [] && !OnlySeparator([])
  {
    SkipNone([]);
  }

  lemma TwoTexts(a: string, b: string)
    ensures JoinAll([a, b]) == a + Semi(b) && SettingsAll([a, b]) == Settings(a) + Settings(b)
  {
    hide Settings, Semi;
    assert [a, b][1..] == [b] && [b][1..] == [] && SettingsAll([]) == [];
  }

  lemma EmptyText()
    ensures Outcome([]) == End && Settings([]) == [] && Loose([]) && !ValueAfterMark([])
  {
    hide ItemWith, Next;
    NothingToRead();
    SkipNone([]);
    EndIs([]);
    SpanIs([], 0, Mark());
  }

  /** An empty text spoils the setting behind it, but not another empty one. */
  lemma EmptySpoils()
    ensures Settings(JoinAll(["", "b:2"])) != SettingsAll(["", "b:2"]) == [Setting("b", "2")]
    ensures Settings(JoinAll(["", ""])) == SettingsAll(["", ""])
  {
    hide Next, Settings, Outcome, ValueAfterMark, MarkAt, Semi, JoinAll, SettingsAll, Loose;
    var text := ['b', ':', '2'];
    assert text == "b:2";
    ShortText('b', '2');
    EmptyText();
    SettingsStep(text);
    TwoTexts([], text);
    TwoTexts([], []);
    JoinedExactly([], text);
    JoinedExactly([], []);
  }

  // ----- staying inside the text

  /** A text is a setting in assign form that ends right behind its opening quote. */
  ghost predicate EndsAtQuote(t: string) {
    exists i: nat {:trigger t[i]} :: i + 1 < |t| && t[i] == '=' &&
      (forall j :: 0 <= j < i ==> t[j] != '=' && t[j] != ':')
      && TrimEnd(t[..i]) != [] && (forall j :: i < j < |t| - 1 ==> IsSpace(t[j])) && !IsSpace(t[|t| - 1])
  }

  lemma NextWhole(s: string)
    ensures var p := SkipSpace(s); Next(s) == if p == [] then End else if MarkAt(p) == |p| then Bad
      else ItemAt(p, MarkAt(p))
    ensures MarkAt(SkipSpace(s)) <= |SkipSpace(s)|
  {
    hide SkipSpace, ItemAt;
  }

  lemma OverrunItem(p: string, mark: nat)
    requires mark < |p|
    ensures ItemAt(p, mark) == Overrun <==>
      p[mark] != ':' && TrimEnd(p[..mark]) != [] && |SkipSpace(p[mark + 1..])| == 1
  {
    hide SkipSpace, TrimEnd, SkipSeparator, Span;
  }

  lemma OneLeft(t: string)
    ensures |SkipSpace(t)| == 1 <==> t != [] && !IsSpace(t[|t| - 1]) && forall j :: 0 <= j < |t| - 1 ==> IsSpace(t[j])
  {
    if t != [] && !IsSpace(t[|t| - 1]) && forall j :: 0 <= j < |t| - 1 ==> IsSpace(t[j]) {
      SpanIs(t, |t| - 1, NotSpace());
    }
  }

  /** The scan leaves the text exactly at a setting in assign form that ends right behind its opening quote. */
  lemma OverrunIs(s: string)
    ensures Next(s) == Overrun <==> EndsAtQuote(SkipSpace(s))
  {
    hide SkipSpace, TrimEnd, Next, ItemAt;
    NextWhole(s);
    var p := SkipSpace(s);
    var m := MarkAt(p);
    if m < |p| {
      OverrunItem(p, m);
      OneLeft(p[m + 1..]);
      Reindexed(p, m);
    }
    FirstMark(p);
  }

  lemma Reindexed(p: string, m: nat)
    requires m < |p|
    ensures var t := p[m + 1..];
      (t != [] && !IsSpace(t[|t| - 1]) && forall j :: 0 <= j < |t| - 1 ==> IsSpace(t[j])) <==>
      (m + 1 < |p| && !IsSpace(p[|p| - 1]) && forall j :: m < j < |p| - 1 ==> IsSpace(p[j]))
  {
    var t := p[m + 1..];
    assert forall j :: 0 <= j < |t| ==> t[j] == p[m + 1 + j];
    assert forall j :: m < j < |p| ==> p[j] == t[j - m - 1];
  }

  lemma FirstMark(p: string)
    ensures forall i: nat {:trigger p[i]} ::
      i < |p| && p[i] == '=' && (forall j :: 0 <= j < i ==> p[j] != '=' && p[j] != ':') ==> i == MarkAt(p)
    ensures MarkAt(p) < |p| && p[MarkAt(p)] != ':' ==> p[MarkAt(p)] == '='
    ensures forall j :: 0 <= j < MarkAt(p) ==> p[j] != '=' && p[j] != ':'
    ensures MarkAt(p) <= |p|
  {
    forall i: nat {:trigger p[i]} | i < |p| && p[i] == '=' && forall j :: 0 <= j < i ==> p[j] != '=' && p[j] != ':'
      ensures i == MarkAt(p)
    {
      SpanIs(p, i, Mark());
    }
  }

  lemma {:induction false} LastReached(s: string)
    ensures var r := Reached(s); Outcome(s) == Next(r[|r| - 1])
    decreases |s|
  {
    hide Next;
    match Next(s)
    case Item(_, rest) =>
      LastReached(rest);
    case _ =>
  }

  /** Reading stays inside the text unless the last setting it reaches is in assign form and the text ends right
      behind that setting's opening quote. */
  lemma StaysInside(s: string)
    ensures Outcome(s) == Overrun <==> EndsAtQuote(SkipSpace(Reached(s)[|Reached(s)| - 1]))
  {
    hide SkipSpace, Next, Outcome, Reached;
    LastReached(s);
    OverrunIs(Reached(s)[|Reached(s)| - 1]);
  }

  /** The shortest such text. */
  lemma Leaves()
    ensures Outcome("a='") == Overrun
  {
    var s := "a='";
    SpanIs(s, 0, NotSpace());
    assert s[1] == '=' && s[..1] == ['a'];
    TrimStep(['a']);
    assert EndsAtQuote(SkipSpace(s));
    OverrunIs(s);
  }
}
