/** Filters that say which documents settings are for, as text and read from text
    (src/mooedit/mooeditfiltersettings.cpp). */
module Filters {
  import ConfigStrings

  datatype Option<T> = None | Some(value: T)

  /** What a text without a type in front is: the one in settings or the one in actions. */
  datatype Kind = Config | Action

  datatype Filter = Langs(ids: seq<string>) | Globs(globs: seq<string>) | Regex(pattern: string) | Invalid(text: string)

  datatype Type = LangsType | GlobsType | RegexType | InvalidType

  function TypeOf(f: Filter): Type {
    match f
    case Langs(_) => LangsType
    case Globs(_) => GlobsType
    case Regex(_) => RegexType
    case Invalid(_) => InvalidType
  }

  /** The type that is not written in front of a text of that kind. */
  function DefaultType(kind: Kind): Type {
    if kind == Config then RegexType else GlobsType
  }

  const LANGS := "langs:"
  const GLOBS := "globs:"
  const REGEX := "regex:"

  predicate Begins(s: string, prefix: string) {
    |prefix| <= |s| && s[..|prefix|] == prefix
  }

  predicate Typed(s: string) {
    Begins(s, LANGS) || Begins(s, GLOBS) || Begins(s, REGEX)
  }

  // ----- lists in a text

  predicate IsDelimiter(c: char) {
    c == ' ' || c == '\t' || c == '\r' || c == '\n' || c == ';' || c == ','
  }

  predicate IsSpace(c: char) {
    c == ' ' || c == '\t' || c == '\r' || c == '\n' || c == '\U{000C}'
  }

  predicate Whole(s: string) {
    forall i :: 0 <= i < |s| ==> !IsDelimiter(s[i])
  }

  /** The pieces of a text between delimiters, empty ones included. */
  function Split(s: string): (r: seq<string>)
    ensures r != [] && forall i :: 0 <= i < |r| ==> Whole(r[i])
  {
    if s == [] then [[]] else
      var rest := Split(s[1..]);
      if IsDelimiter(s[0]) then [[]] + rest else [[s[0]] + rest[0]] + rest[1..]
  }

  function StripStart(s: string): (r: string)
    ensures |r| <= |s| && (r == [] || !IsSpace(r[0])) && (Whole(s) ==> Whole(r))
  {
    if s != [] && IsSpace(s[0]) then StripStart(s[1..]) else s
  }

  function StripEnd(s: string): (r: string)
    ensures r <= s && (r == [] || !IsSpace(r[|r| - 1])) && (Whole(s) ==> Whole(r))
  {
    if s != [] && IsSpace(s[|s| - 1]) then StripEnd(s[..|s| - 1]) else s
  }

  function Strip(s: string): (r: string)
    ensures r == [] || (!IsSpace(r[0]) && !IsSpace(r[|r| - 1]))
    ensures Whole(s) ==> Whole(r)
  {
    StripEnd(StripStart(s))
  }

  function Lower(s: string): (r: string)
    ensures |r| == |s|
    ensures forall i :: 0 <= i < |s| ==> r[i] == if 'A' <= s[i] <= 'Z' then (s[i] as int + 32) as char else s[i]
  {
    seq(|s|, i requires 0 <= i < |s| => if 'A' <= s[i] <= 'Z' then (s[i] as int + 32) as char else s[i])
  }

  function IdFromName(name: string): string {
    if Lower(name) == "none" then "none" else Strip(Lower(name))
  }

  /** Neither empty nor with a delimiter in it or a space at its ends. */
  ghost predicate Item(s: string) {
    s != [] && Whole(s) && !IsSpace(s[0]) && !IsSpace(s[|s| - 1])
  }

  /** The pieces that are left when spaces are taken off and empty ones left out. */
  ghost function Clean(pieces: seq<string>): (r: seq<string>)
    requires forall i :: 0 <= i < |pieces| ==> Whole(pieces[i])
    ensures forall i :: 0 <= i < |r| ==> Item(r[i])
  {
    if pieces == [] then [] else
      var last := Strip(pieces[|pieces| - 1]);
      Clean(pieces[..|pieces| - 1]) + if last == [] then [] else [last]
  }

  ghost function Items(s: string): seq<string> {
    Clean(Split(s))
  }

  ghost function Ids(items: seq<string>): (r: seq<string>)
    ensures |r| == |items| && forall i :: 0 <= i < |r| ==> r[i] == IdFromName(items[i])
  {
    seq(|items|, i requires 0 <= i < |items| => IdFromName(items[i]))
  }

  ghost function Joined(items: seq<string>): string {
    if items == [] then [] else if |items| == 1 then items[0] else items[0] + [';'] + Joined(items[1..])
  }

  // ----- reading and writing filters

  ghost function Read(s: string, kind: Kind, valid: string -> bool): Option<Filter> {
    if s == [] then None
    else if Begins(s, LANGS) then Some(Langs(Ids(Items(s[6..]))))
    else if Begins(s, GLOBS) then Some(Globs(Items(s[6..])))
    else if Begins(s, REGEX) then Some(ReadRegex(s[6..], valid))
    else Some(if kind == Config then ReadRegex(s, valid) else Globs(Items(s)))
  }

  ghost function ReadRegex(s: string, valid: string -> bool): Filter {
    if valid(s) then Regex(s) else Invalid(s)
  }

  ghost function Written(f: Filter, default: Type): string {
    (if TypeOf(f) == default then [] else
      match f
      case Langs(_) => LANGS
      case Globs(_) => GLOBS
      case Regex(_) => REGEX
      case Invalid(_) => []) +
    match f
    case Langs(ids) => Joined(ids)
    case Globs(globs) => Joined(globs)
    case Regex(pattern) => pattern
    case Invalid(text) => text
  }

  /** When the text of a filter reads as that filter: its type is written in front, or the text shows it. */
  ghost predicate Reads(f: Filter, kind: Kind) {
    match f
    case Langs(_) => true
    case Globs(globs) => kind == Config || (globs != [] && !Typed(globs[0]))
    case Regex(pattern) => kind == Action || (pattern != [] && !Typed(pattern))
    case Invalid(text) => kind == Config && text != [] && !Typed(text)
  }

  lemma {:induction false} SplitWhole(s: string)
    requires Whole(s)
    ensures Split(s) == [s]
  {
    if s != [] {
      SplitWhole(s[1..]);
      assert [s[0]] + s[1..] == s;
    }
  }

  lemma {:induction false} SplitFirst(s: string, d: char, rest: string)
    requires Whole(s) && IsDelimiter(d)
    ensures Split(s + [d] + rest) == [s] + Split(rest)
  {
    var t := s + [d] + rest;
    if s == [] {
      assert t[1..] == rest;
    } else {
      assert t[1..] == s[1..] + [d] + rest && t[0] == s[0];
      SplitFirst(s[1..], d, rest);
      assert [s[0]] + s[1..] == s;
      assert ([s[1..]] + Split(rest))[1..] == Split(rest);
    }
  }

  lemma {:induction false} SplitJoined(items: seq<string>)
    requires items != [] && forall i :: 0 <= i < |items| ==> Whole(items[i])
    ensures Split(Joined(items)) == items
  {
    if |items| == 1 {
      SplitWhole(items[0]);
    } else {
      SplitFirst(items[0], ';', Joined(items[1..]));
      SplitJoined(items[1..]);
    }
  }

  lemma {:induction false} CleanItems(items: seq<string>)
    requires forall i :: 0 <= i < |items| ==> Item(items[i]) && Whole(items[i])
    ensures Clean(items) == items
  {
    if items != [] {
      CleanItems(items[..|items| - 1]);
      assert Strip(items[|items| - 1]) == items[|items| - 1];
    }
  }

  /** A list of items is read as it was written. */
  lemma ItemsJoined(items: seq<string>)
    requires forall i :: 0 <= i < |items| ==> Item(items[i])
    ensures Items(Joined(items)) == items
  {
    if items == [] {
      assert Split([]) == [[]];
      assert Strip([]) == [];
    } else {
      SplitJoined(items);
      CleanItems(items);
    }
  }

  /** What can be an item of a list: any text without the six delimiters that has no form feed at its ends. */
  lemma ItemIs(s: string)
    ensures Item(s) <==>
      s != [] && (forall c :: c in s ==> c !in " \t\r\n;,") && s[0] != '\U{000C}' && s[|s| - 1] != '\U{000C}'
  {
    forall c ensures IsDelimiter(c) <==> c in " \t\r\n;," {
      Delimits(c);
    }
    assert s != [] ==> s[0] in s && s[|s| - 1] in s;
  }

  lemma {:induction false} CleanJoin(a: seq<string>, b: seq<string>)
    requires forall i :: 0 <= i < |a| ==> Whole(a[i])
    requires forall i :: 0 <= i < |b| ==> Whole(b[i])
    ensures forall i :: 0 <= i < |a + b| ==> Whole((a + b)[i])
    ensures Clean(a + b) == Clean(a) + Clean(b)
  {
    if b == [] {
      assert a + b == a;
    } else {
      assert (a + b)[..|a + b| - 1] == a + b[..|b| - 1];
      CleanJoin(a, b[..|b| - 1]);
    }
  }

  lemma ItemsNext(s: string, d: char, rest: string)
    requires (s == [] || Item(s)) && IsDelimiter(d)
    ensures Items(s + [d] + rest) == (if s == [] then [] else [s]) + Items(rest)
  {
    hide Clean;
    assert Whole(s);
    SplitFirst(s, d, rest);
    CleanJoin([s], Split(rest));
    CleanOne(s);
  }

  lemma CleanOne(s: string)
    requires s == [] || Item(s)
    ensures Clean([s]) == if s == [] then [] else [s]
  {
    assert [s][..0] == [];
    if s != [] {
      ItemStripped(s);
    }
  }

  /** A run of spaces, tabs, line ends, semicolons and commas. */
  ghost predicate Gap(s: string) {
    forall i :: 0 <= i < |s| ==> s[i] in " \t\r\n;,"
  }

  /** Items with gaps before, between and behind them. */
  ghost function Spread(items: seq<string>, gaps: seq<string>): string
    requires |gaps| == |items| + 1
  {
    if items == [] then gaps[0] else gaps[0] + (items[0] + Spread(items[1..], gaps[1..]))
  }

  lemma {:induction false} SkipGap(gap: string, rest: string)
    requires Gap(gap)
    ensures Items(gap + rest) == Items(rest)
  {
    hide Items, IsDelimiter;
    if gap == [] {
      assert gap + rest == rest;
    } else {
      var t := gap[1..] + rest;
      assert gap + rest == [] + [gap[0]] + t;
      Delimits(gap[0]);
      ItemsNext([], gap[0], t);
      SkipGap(gap[1..], rest);
    }
  }

  lemma Delimits(d: char)
    ensures IsDelimiter(d) <==> d in " \t\r\n;,"
  {
  }

  /** Items are read whatever gaps are between them, before and behind. */
  lemma {:induction false} ItemsSpread(items: seq<string>, gaps: seq<string>)
    requires |gaps| == |items| + 1
    requires forall i :: 0 <= i < |gaps| ==> Gap(gaps[i]) && (0 < i < |items| ==> gaps[i] != [])
    requires forall i :: 0 <= i < |items| ==> Item(items[i])
    ensures Items(Spread(items, gaps)) == items
  {
    hide Items, IsDelimiter, Whole, IsSpace, Gap;
    NoItems();
    if items == [] {
      SkipGap(gaps[0], []);
      assert gaps[0] + [] == gaps[0];
    } else {
      var rest := Spread(items[1..], gaps[1..]);
      SkipGap(gaps[0], items[0] + rest);
      ItemsSpread(items[1..], gaps[1..]);
      if rest == [] {
        OneItem(items[0]);
        assert items[0] + rest == items[0];
      } else {
        FirstDelimits(items, gaps);
        assert items[0] + rest == items[0] + [rest[0]] + rest[1..];
        assert rest == [] + [rest[0]] + rest[1..];
        ItemsNext(items[0], rest[0], rest[1..]);
        ItemsNext([], rest[0], rest[1..]);
        assert [items[0]] + items[1..] == items && [] + Items(rest[1..]) == Items(rest[1..]);
      }
    }
  }

  lemma NoItems()
    ensures Items([]) == []
  {
    assert Split([]) == [[]];
    CleanOne([]);
  }

  lemma OneItem(s: string)
    requires Item(s)
    ensures Items(s) == [s]
  {
    SplitWhole(s);
    CleanOne(s);
  }

  lemma FirstDelimits(items: seq<string>, gaps: seq<string>)
    requires |gaps| == |items| + 1 && items != []
    requires forall i :: 0 <= i < |gaps| ==> Gap(gaps[i]) && (0 < i < |items| ==> gaps[i] != [])
    requires Spread(items[1..], gaps[1..]) != []
    ensures IsDelimiter(Spread(items[1..], gaps[1..])[0])
  {
    assert gaps[1..][0] == gaps[1];
    Delimits(Spread(items[1..], gaps[1..])[0]);
  }

  /** The id of a language is its name in lower case. */
  lemma IdIs(name: string)
    requires Item(name)
    ensures var id := IdFromName(name);
      |id| == |name| && forall i :: 0 <= i < |id| ==>
        id[i] == if 'A' <= name[i] <= 'Z' then ('a' as int + (name[i] as int - 'A' as int)) as char else name[i]
  {
    var low := Lower(name);
    assert Whole(low) && Item(low);
    ItemStripped(low);
    assert IdFromName(name) == low;
  }

  /** The id of a language is its own id. */
  lemma IdItem(item: string)
    requires Item(item)
    ensures Item(IdFromName(item)) && IdFromName(IdFromName(item)) == IdFromName(item)
  {
    var low := Lower(item);
    assert Whole(low) && Item(low);
    assert Strip(low) == low;
    assert Lower(low) == low;
    assert Lower("none") == "none";
  }

  lemma IdsItems(items: seq<string>)
    requires forall i :: 0 <= i < |items| ==> Item(items[i])
    ensures forall i :: 0 <= i < |items| ==> Item(Ids(items)[i])
    ensures Ids(Ids(items)) == Ids(items)
  {
    forall i | 0 <= i < |items| ensures Item(Ids(items)[i]) && IdFromName(Ids(items)[i]) == Ids(items)[i] {
      IdItem(items[i]);
    }
  }

  lemma Front(prefix: string, s: string)
    ensures Begins(prefix + s, prefix) && (prefix + s)[|prefix|..] == s
  {
  }

  /** Texts of different types begin differently. */
  lemma Types(s: string)
    ensures !(Begins(s, LANGS) && Begins(s, GLOBS)) && !(Begins(s, LANGS) && Begins(s, REGEX))
    ensures !(Begins(s, GLOBS) && Begins(s, REGEX))
  {
    assert Begins(s, LANGS) ==> s[..6][0] == 'l';
    assert Begins(s, GLOBS) ==> s[..6][0] == 'g';
    assert Begins(s, REGEX) ==> s[..6][0] == 'r';
  }

  /** A list of items begins with a type exactly when its first item does. */
  lemma JoinedTyped(items: seq<string>)
    requires items != [] && Whole(items[0]) && items[0] != []
    ensures Typed(Joined(items)) <==> Typed(items[0])
    ensures Joined(items) != []
  {
    hide Begins;
    var a := items[0];
    if |items| > 1 {
      var rest := [';'] + Joined(items[1..]);
      assert Joined(items) == a + rest;
      BeginsBefore(a, rest, LANGS);
      BeginsBefore(a, rest, GLOBS);
      BeginsBefore(a, rest, REGEX);
    }
  }

  lemma BeginsBefore(a: string, rest: string, prefix: string)
    requires rest != [] && rest[0] == ';' && (prefix == LANGS || prefix == GLOBS || prefix == REGEX)
    ensures Begins(a + rest, prefix) <==> Begins(a, prefix)
  {
    var s := a + rest;
    assert prefix[0] != ';' && prefix[1] != ';' && prefix[2] != ';' && prefix[3] != ';' && prefix[4] != ';' &&
      prefix[5] != ';';
    if |prefix| <= |a| {
      assert s[..|prefix|] == a[..|prefix|];
    } else if |prefix| <= |s| {
      assert s[..|prefix|][|a|] == ';';
      assert prefix[|a|] != ';';
    }
  }

  lemma ItemStripped(s: string)
    requires Item(s)
    ensures Strip(s) == s
  {
  }

  lemma {:induction false} CleanFirst(u: string, items: seq<string>)
    requires Whole(u) && forall i :: 0 <= i < |items| ==> Item(items[i]) && Whole(items[i])
    ensures forall i :: 0 <= i < |[u] + items| ==> Whole(([u] + items)[i])
    ensures Clean([u] + items) == (if Strip(u) == [] then [] else [Strip(u)]) + items
  {
    hide Strip;
    var s := [u] + items;
    if items == [] {
      assert s == [u] && s[..0] == [];
    } else {
      assert s[..|s| - 1] == [u] + items[..|items| - 1];
      CleanFirst(u, items[..|items| - 1]);
      ItemStripped(items[|items| - 1]);
    }
  }

  lemma {:induction false} StripShortens(s: string)
    ensures |Strip(s)| <= |s|
  {
  }

  /** Taking a type off a list of items does not leave the same list. */
  lemma TypeOff(items: seq<string>)
    requires items != [] && |items[0]| >= 6 && forall i :: 0 <= i < |items| ==> Item(items[i]) && Whole(items[i])
    ensures |Joined(items)| >= 6 && Items(Joined(items)[6..]) != items
  {
    hide Item;
    var u, rest := items[0][6..], items[1..];
    StripShortens(u);
    CleanFirst(u, rest);
    if rest == [] {
      SplitWhole(u);
      assert [u] + rest == [u];
    } else {
      assert Joined(items)[6..] == u + [';'] + Joined(rest);
      SplitFirst(u, ';', Joined(rest));
      SplitJoined(rest);
    }
  }

  /** A text with a type in front is read as that type, one without as a pattern in settings and as globs in
      actions. */
  lemma TypedText(t: string, kind: Kind, valid: string -> bool)
    ensures Read("langs:" + t, kind, valid) == Some(Langs(Ids(Items(t))))
    ensures Read("globs:" + t, kind, valid) == Some(Globs(Items(t)))
    ensures Read("regex:" + t, kind, valid) == Some(if valid(t) then Regex(t) else Invalid(t))
    ensures t != [] && t[0] !in "lgr" ==>
      Read(t, kind, valid) ==
        Some(if kind == Action then Globs(Items(t)) else if valid(t) then Regex(t) else Invalid(t))
  {
    hide Ids, Items;
    Types("langs:" + t);
    Types("globs:" + t);
    Types("regex:" + t);
    Front(LANGS, t);
    Front(GLOBS, t);
    Front(REGEX, t);
    assert Typed(t) ==> t[..6][0] == t[0];
  }

  /** What is written in front, in settings and in actions. */
  lemma TypeWritten(items: seq<string>, s: string)
    ensures Written(Langs(items), DefaultType(Config)) == Written(Langs(items), DefaultType(Action)) ==
      "langs:" + Joined(items)
    ensures Written(Globs(items), DefaultType(Config)) == "globs:" + Joined(items)
    ensures Written(Globs(items), DefaultType(Action)) == Joined(items)
    ensures Written(Regex(s), DefaultType(Config)) == s && Written(Regex(s), DefaultType(Action)) == "regex:" + s
    ensures Written(Invalid(s), DefaultType(Config)) == Written(Invalid(s), DefaultType(Action)) == s
  {
    hide Joined;
    assert [] + Joined(items) == Joined(items) && [] + s == s;
  }

  /** What reading can give. */
  ghost predicate Readable(f: Filter, valid: string -> bool) {
    match f
    case Langs(ids) => Ids(ids) == ids && forall i :: 0 <= i < |ids| ==> Item(ids[i])
    case Globs(globs) => forall i :: 0 <= i < |globs| ==> Item(globs[i])
    case Regex(pattern) => valid(pattern)
    case Invalid(text) => !valid(text)
  }

  lemma ReadIs(s: string, kind: Kind, valid: string -> bool)
    requires Read(s, kind, valid).Some?
    ensures Readable(Read(s, kind, valid).value, valid)
  {
    hide Ids, Item;
    if Begins(s, LANGS) {
      IdsItems(Items(s[6..]));
    }
  }

  /** Without a type in front, a text that begins with one is not read as itself. */
  lemma ReadPlain(s: string, kind: Kind, valid: string -> bool)
    ensures Read(s, kind, valid) ==
      if s == [] then None
      else if Typed(s) then Read(s, kind, valid)
      else Some(if kind == Config then ReadRegex(s, valid) else Globs(Items(s)))
    ensures Typed(s) ==> Read(s, kind, valid) != Some(ReadRegex(s, valid))
    ensures Typed(s) && !Begins(s, GLOBS) ==> !Read(s, kind, valid).value.Globs?
  {
    hide Items, Ids;
    Types(s);
  }

  lemma JoinedNone()
    ensures Joined([]) == []
  {
  }

  lemma TypedLong(s: string)
    ensures Typed(s) ==> |s| >= 6
  {
  }

  /** A filter that was read, and is written, is read again as the same filter exactly when Reads says so. */
  lemma RoundTrip(f: Filter, kind: Kind, valid: string -> bool)
    requires Readable(f, valid)
    ensures Read(Written(f, DefaultType(kind)), kind, valid) == Some(f) <==> Reads(f, kind)
  {
    hide Items, Ids, Joined, Typed, Begins, Whole;
    var t := Written(f, DefaultType(kind));
    Types(t);
    ReadPlain(t, kind, valid);
    match f
    case Langs(ids) =>
      ItemsJoined(ids);
      Front(LANGS, Joined(ids));
    case Globs(globs) =>
      ItemsJoined(globs);
      Front(GLOBS, Joined(globs));
      assert [] + Joined(globs) == Joined(globs);
      JoinedNone();
      if globs != [] {
        JoinedTyped(globs);
        if Typed(globs[0]) {
          TypedLong(globs[0]);
          TypeOff(globs);
        }
      }
    case Regex(pattern) =>
      Front(REGEX, pattern);
      assert [] + pattern == pattern;
    case Invalid(text) =>
      assert [] + text == text;
  }

  /** The filter "regex:" in settings is written as an empty text, which is no filter at all. */
  lemma EmptyPattern(valid: string -> bool)
    requires valid([])
    ensures Read("regex:", Config, valid) == Some(Regex([]))
    ensures Written(Regex([]), DefaultType(Config)) == [] && Read([], Config, valid) == None
  {
    hide Items, Ids;
    Types("regex:");
    Front(REGEX, []);
    assert REGEX + [] == "regex:";
  }

  // ----- the program

  lemma {:induction false} JoinedLast(items: seq<string>, x: string)
    ensures Joined(items + [x]) == if items == [] then x else Joined(items) + [';'] + x
  {
    if |items| > 0 {
      assert (items + [x])[1..] == items[1..] + [x];
      JoinedLast(items[1..], x);
    }
  }

  method JoinItems(items: seq<string>) returns (s: string)
    ensures s == Joined(items)
  {
    s := "";
    var i := 0;
    while i < |items|
      invariant i <= |items| && s == Joined(items[..i])
    {
      assert items[..i + 1] == items[..i] + [items[i]];
      JoinedLast(items[..i], items[i]);
      if i != 0 {
        s := s + ";";
      }
      s := s + items[i];
      i := i + 1;
    }
    assert items[..i] == items;
  }

  method GetString(filter: Filter, default: Type) returns (s: string)
    ensures s == Written(filter, default)
  {
    s := "";
    if TypeOf(filter) != default {
      match filter
      case Langs(_) => s := LANGS;
      case Globs(_) => s := GLOBS;
      case Regex(_) => s := REGEX;
      case Invalid(_) =>
    }
    var rest;
    match filter {
      case Langs(ids) => rest := JoinItems(ids);
      case Globs(globs) => rest := JoinItems(globs);
      case Regex(pattern) => rest := pattern;
      case Invalid(text) => rest := text;
    }
    s := s + rest;
  }

  method ParseItems(s: string) returns (list: seq<string>)
    ensures list == Items(s)
  {
    var pieces := Split(s);
    list := [];
    var i := 0;
    while i < |pieces|
      invariant i <= |pieces| && list == Clean(pieces[..i])
    {
      assert pieces[..i + 1][..i] == pieces[..i];
      var item := Strip(pieces[i]);
      if item != [] {
        list := list + [item];
      }
      i := i + 1;
    }
    assert pieces[..i] == pieces;
  }

  method ParseLangs(s: string) returns (list: seq<string>)
    ensures list == Ids(Items(s))
  {
    hide Items, IdFromName;
    var items := ParseItems(s);
    list := [];
    var i := 0;
    while i < |items|
      invariant i <= |items| == |Ids(items)| && list == Ids(items)[..i]
    {
      list := list + [IdFromName(items[i])];
      i := i + 1;
    }
  }

  method NewRegex(s: string, valid: string -> bool) returns (filter: Filter)
    ensures filter == ReadRegex(s, valid)
  {
    if !valid(s) {
      return Invalid(s);
    }
    return Regex(s);
  }

  method NewFull(s: string, kind: Kind, valid: string -> bool) returns (filter: Option<Filter>)
    ensures filter == Read(s, kind, valid)
  {
    if s == "" {
      return None;
    }
    if Begins(s, LANGS) {
      var ids := ParseLangs(s[|LANGS|..]);
      return Some(Langs(ids));
    }
    if Begins(s, GLOBS) {
      var globs := ParseItems(s[|GLOBS|..]);
      return Some(Globs(globs));
    }
    if Begins(s, REGEX) {
      var regex := NewRegex(s[|REGEX|..], valid);
      return Some(regex);
    }
    match kind {
      case Config =>
        var regex := NewRegex(s, valid);
        return Some(regex);
      case Action =>
        var globs := ParseItems(s);
        return Some(Globs(globs));
    }
  }

  // ----- the settings for a document

  datatype FilterSetting = FilterSetting(filter: Filter, config: string)

  /** The texts of the settings whose filters match, in order. */
  ghost function Matching(store: seq<FilterSetting>, matches: Filter -> bool): seq<string> {
    if store == [] then [] else
      var last := store[|store| - 1];
      Matching(store[..|store| - 1], matches) + if matches(last.filter) then [last.config] else []
  }

  lemma {:induction false} JoinAllLast(texts: seq<string>, text: string)
    requires texts != []
    ensures ConfigStrings.JoinAll(texts + [text]) == ConfigStrings.JoinAll(texts) + [';'] + text
  {
    assert (texts + [text])[1..] == texts[1..] + [text];
    if |texts| > 1 {
      JoinAllLast(texts[1..], text);
    }
  }

  /** The matching texts of two stores, one behind the other. */
  lemma {:induction false} MatchingJoin(a: seq<FilterSetting>, b: seq<FilterSetting>, matches: Filter -> bool)
    ensures Matching(a + b, matches) == Matching(a, matches) + Matching(b, matches)
    ensures |a| == 1 ==> Matching(a, matches) == if matches(a[0].filter) then [a[0].config] else []
  {
    if b == [] {
      assert a + b == a;
    } else {
      assert (a + b)[..|a + b| - 1] == a + b[..|b| - 1];
      MatchingJoin(a, b[..|b| - 1], matches);
    }
    if |a| == 1 {
      assert a[..0] == [];
    }
  }

  lemma NoneMatching(matches: Filter -> bool)
    ensures Matching([], matches) == []
  {
  }

  lemma MatchingNext(store: seq<FilterSetting>, i: nat, matches: Filter -> bool)
    requires i < |store|
    ensures var texts := Matching(store[..i], matches);
      Matching(store[..i + 1], matches) ==
        if matches(store[i].filter) then texts + [store[i].config] else texts
  {
    assert store[..i + 1][..i] == store[..i];
  }

  /** The settings that match a document, joined to one text; none if nothing matches. */
  method GetSetting(store: seq<FilterSetting>, matches: Filter -> bool) returns (result: Option<string>)
    ensures var texts := Matching(store, matches);
      result == if texts == [] then None else Some(ConfigStrings.JoinAll(texts))
  {
    hide Matching;
    result := None;
    NoneMatching(matches);
    var i := 0;
    while i < |store|
      invariant i <= |store|
      invariant var texts := Matching(store[..i], matches);
        result == if texts == [] then None else Some(ConfigStrings.JoinAll(texts))
    {
      MatchingNext(store, i, matches);
      ghost var texts := Matching(store[..i], matches);
      if matches(store[i].filter) {
        if result.None? {
          assert texts + [store[i].config] == [store[i].config];
          result := Some(store[i].config);
        } else {
          JoinAllLast(texts, store[i].config);
          result := Some(result.value + ";" + store[i].config);
        }
      }
      i := i + 1;
    }
    assert store[..i] == store;
  }

  /** What a document's filters assign is what each text that matches assigns, in order, exactly when none that is
      blank or ends in a separator comes before others with a value behind their first mark. */
  lemma MatchingSettings(store: seq<FilterSetting>, matches: Filter -> bool)
    requires var texts := Matching(store, matches); texts != [] && ConfigStrings.AllReadable(texts)
    ensures var texts := Matching(store, matches);
      ConfigStrings.Settings(ConfigStrings.JoinAll(texts)) == ConfigStrings.SettingsAll(texts) <==>
      forall i :: !ConfigStrings.Spoilt(texts, i)
  {
    hide Matching, ConfigStrings.AllReadable, ConfigStrings.Spoilt;
    ConfigStrings.JoinedAll(Matching(store, matches));
  }

  /** A rule without settings spoils the next one that matches. */
  lemma EmptyRule(filter: Filter, other: Filter)
    ensures var store := [FilterSetting(filter, ""), FilterSetting(other, "b:2")];
      var texts := Matching(store, f => true);
      ConfigStrings.Settings(ConfigStrings.JoinAll(texts)) != ConfigStrings.SettingsAll(texts)
  {
    hide ConfigStrings.Settings, ConfigStrings.JoinAll, ConfigStrings.SettingsAll;
    var first, second := FilterSetting(filter, ""), FilterSetting(other, "b:2");
    assert [first, second][..1] == [first] && [first][..0] == [];
    assert Matching([], f => true) == [];
    assert Matching([first], f => true) == [""];
    assert Matching([first, second], f => true) == ["", "b:2"];
    ConfigStrings.EmptySpoils();
  }
}
