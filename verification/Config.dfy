/** Settings of documents in layers, and how a document's settings are worked out again
    (src/mooedit/mooeditconfig.cpp, src/mooedit/mooedit.cpp). */
module Configs {

  /** Where a value comes from; smaller numbers take precedence. */
  const USER := 0
  const FILE := 10
  const FILENAME := 20
  const LANG := 30
  const AUTO := 40

  datatype Value = Null | Text(text: string) | Number(number: nat) | Flag(on: bool)

  datatype Entry = Entry(value: Value, source: int)

  datatype Setting = Setting(prop: nat, source: int, value: Value)

  datatype Assignment = Assignment(prop: nat, value: Value)

  // ----- one layer over the other

  function Set(e: Entry, source: int, value: Value): Entry {
    if e.source >= source then Entry(value, source) else e
  }

  /** Defaults give way to every other value, and the user's value to none. */
  lemma Ranks(e: Entry, source: int, value: Value)
    ensures e.source in {USER, FILE, FILENAME, LANG} ==> Set(e, AUTO, value) == e
    ensures e.source == AUTO && source in {USER, FILE, FILENAME, LANG} ==> Set(e, source, value) == Entry(value, source)
    ensures e.source == USER && source in {FILE, FILENAME, LANG, AUTO} ==> Set(e, source, value) == e
  {
  }

  ghost predicate InRange(sets: seq<Setting>, n: nat) {
    forall i :: 0 <= i < |sets| ==> sets[i].prop < n
  }

  /** The values after a run of assignments. */
  ghost function Applied(values: seq<Entry>, sets: seq<Setting>): (r: seq<Entry>)
    requires InRange(sets, |values|)
    ensures |r| == |values|
  {
    if sets == [] then values else
      var v, last := Applied(values, sets[..|sets| - 1]), sets[|sets| - 1];
      v[last.prop := Set(v[last.prop], last.source, last.value)]
  }

  /** The assignment at i is to p, and every later one to p is from a source that counts less. */
  ghost predicate Winner(sets: seq<Setting>, p: nat, i: int) {
    && 0 <= i < |sets| && sets[i].prop == p
    && forall j :: i < j < |sets| && sets[j].prop == p ==> sets[i].source < sets[j].source
  }

  /** What is left of a setting after a run of assignments: nothing from a source that counts more has been
      assigned, and it is the last value assigned from its source, or else what was there. */
  ghost predicate Wins(was: Entry, sets: seq<Setting>, p: nat, e: Entry) {
    && e.source <= was.source
    && (forall j :: 0 <= j < |sets| && sets[j].prop == p ==> e.source <= sets[j].source)
    && ((e == was && forall j :: 0 <= j < |sets| && sets[j].prop == p ==> was.source < sets[j].source) ||
        exists i :: Winner(sets, p, i) && e == Entry(sets[i].value, sets[i].source))
  }

  /** Any run of assignments leaves the last value assigned from the source that counts most. */
  lemma {:induction false} LastWins(values: seq<Entry>, sets: seq<Setting>, p: nat)
    requires InRange(sets, |values|) && p < |values|
    ensures Wins(values[p], sets, p, Applied(values, sets)[p])
  {
    hide Applied, Wins;
    if sets == [] {
      NoneApplied(values);
      NoneWins(values[p], p);
    } else {
      var before, s := sets[..|sets| - 1], sets[|sets| - 1];
      assert sets == before + [s];
      LastWins(values, before, p);
      AppliedNext(values, before, s);
      WinsNext(values[p], before, s, p, Applied(values, before)[p]);
    }
  }

  lemma NoneWins(was: Entry, p: nat)
    ensures Wins(was, [], p, was)
  {
  }

  lemma WinsNext(was: Entry, before: seq<Setting>, s: Setting, p: nat, e: Entry)
    requires Wins(was, before, p, e)
    ensures Wins(was, before + [s], p, if s.prop == p then Set(e, s.source, s.value) else e)
  {
    var sets, k := before + [s], |before|;
    assert forall i :: 0 <= i < k ==> sets[i] == before[i];
    if s.prop == p && e.source >= s.source {
      LastIsWinner(before, s);
    } else if exists i :: Winner(before, p, i) && e == Entry(before[i].value, before[i].source) {
      var i :| Winner(before, p, i) && e == Entry(before[i].value, before[i].source);
      StaysWinner(before, s, p, i);
    }
  }

  lemma LastIsWinner(before: seq<Setting>, s: Setting)
    ensures Winner(before + [s], s.prop, |before|)
  {
  }

  lemma StaysWinner(before: seq<Setting>, s: Setting, p: nat, i: int)
    requires Winner(before, p, i) && (s.prop == p ==> before[i].source < s.source)
    ensures Winner(before + [s], p, i)
  {
  }

  /** There is only one such result. */
  lemma OneWins(was: Entry, sets: seq<Setting>, p: nat, e: Entry, f: Entry)
    requires Wins(was, sets, p, e) && Wins(was, sets, p, f)
    ensures e == f
  {
  }

  lemma AppliedNext(values: seq<Entry>, sets: seq<Setting>, s: Setting)
    requires InRange(sets, |values|) && s.prop < |values|
    ensures InRange(sets + [s], |values|)
    ensures var v := Applied(values, sets);
      Applied(values, sets + [s]) == v[s.prop := Set(v[s.prop], s.source, s.value)]
  {
    assert (sets + [s])[..|sets|] == sets;
  }

  lemma {:induction false} AppliedJoin(values: seq<Entry>, a: seq<Setting>, b: seq<Setting>)
    requires InRange(a, |values|) && InRange(b, |values|)
    ensures InRange(a + b, |values|) && Applied(values, a + b) == Applied(Applied(values, a), b)
  {
    var ab := a + b;
    assert forall i :: 0 <= i < |ab| ==> ab[i] == if i < |a| then a[i] else b[i - |a|];
    if b == [] {
      assert ab == a;
    } else {
      assert ab[..|ab| - 1] == a + b[..|b| - 1];
      AppliedJoin(values, a, b[..|b| - 1]);
    }
  }

  /** Assignments from different sources, or to different settings, can change places. */
  lemma Commute(values: seq<Entry>, a: seq<Setting>, s: Setting, t: Setting, b: seq<Setting>)
    requires InRange(a, |values|) && InRange(b, |values|) && s.prop < |values| && t.prop < |values|
    requires s.prop != t.prop || s.source != t.source
    ensures InRange(a + [s, t] + b, |values|) && InRange(a + [t, s] + b, |values|)
    ensures Applied(values, a + [s, t] + b) == Applied(values, a + [t, s] + b)
  {
    hide Applied;
    AppliedJoin(values, a, [s, t]);
    AppliedJoin(values, a, [t, s]);
    AppliedJoin(values, a + [s, t], b);
    AppliedJoin(values, a + [t, s], b);
    Swapped(Applied(values, a), s, t);
  }

  lemma Swapped(v: seq<Entry>, s: Setting, t: Setting)
    requires s.prop < |v| && t.prop < |v| && (s.prop != t.prop || s.source != t.source)
    ensures Applied(v, [s, t]) == Applied(v, [t, s])
  {
    hide Applied;
    TwoApplied(v, s, t);
    TwoApplied(v, t, s);
  }

  lemma TwoApplied(v: seq<Entry>, s: Setting, t: Setting)
    requires s.prop < |v| && t.prop < |v|
    ensures var w := v[s.prop := Set(v[s.prop], s.source, s.value)];
      Applied(v, [s, t]) == w[t.prop := Set(w[t.prop], t.source, t.value)]
  {
    hide Applied;
    NoneApplied(v);
    AppliedNext(v, [], s);
    assert [] + [s] == [s] && [s] + [t] == [s, t];
    AppliedNext(v, [s], t);
  }

  lemma NoneApplied(v: seq<Entry>)
    ensures Applied(v, []) == v
  {
  }

  // ----- taking layers off again

  function Reset(e: Entry, g: Entry, source: int): Entry {
    if e.source < source then e else g
  }

  /** Global values stand in for everything that comes from a source on. */
  ghost function Unset(values: seq<Entry>, global: seq<Entry>, source: int): (r: seq<Entry>)
    requires |values| == |global|
    ensures |r| == |values| && forall p :: 0 <= p < |r| ==> r[p] == Reset(values[p], global[p], source)
  {
    seq(|values|, p requires 0 <= p < |values| => Reset(values[p], global[p], source))
  }

  ghost function Defaults(defaults: seq<Value>): (r: seq<Entry>)
    ensures |r| == |defaults| && forall p :: 0 <= p < |r| ==> r[p] == Entry(defaults[p], AUTO)
  {
    seq(|defaults|, p requires 0 <= p < |defaults| => Entry(defaults[p], AUTO))
  }

  /** Taking the layers from a source on off undoes all assignments from there, whatever they were. */
  lemma {:induction false} Undone(values: seq<Entry>, global: seq<Entry>, sets: seq<Setting>, source: int)
    requires |values| == |global| && InRange(sets, |values|)
    requires forall i :: 0 <= i < |sets| ==> source <= sets[i].source
    ensures Unset(Applied(values, sets), global, source) == Unset(values, global, source)
  {
    forall p | 0 <= p < |values|
      ensures Reset(Applied(values, sets)[p], global[p], source) == Reset(values[p], global[p], source)
    {
      LastWins(values, sets, p);
    }
  }

  // ----- working out a document's settings

  /** What a document's settings depend on: the language its name stands for, what its mode lines assign, what the
      filters assign that match it while it has a language, and what a language assigns. */
  datatype Inputs = Inputs(
    lang: Value,
    modeLines: seq<Assignment>,
    filters: Value -> seq<Assignment>,
    langConfig: Value -> seq<Assignment>)

  ghost predicate Fits(inputs: Inputs, lang: nat, n: nat) {
    && lang < n
    && (forall i :: 0 <= i < |inputs.modeLines| ==> inputs.modeLines[i].prop < n)
    && (forall v, i :: 0 <= i < |inputs.filters(v)| ==> inputs.filters(v)[i].prop < n)
    && (forall v, i :: 0 <= i < |inputs.langConfig(v)| ==> inputs.langConfig(v)[i].prop < n)
  }

  ghost function At(source: int, assignments: seq<Assignment>): (r: seq<Setting>)
    ensures |r| == |assignments|
    ensures forall i :: 0 <= i < |r| ==> r[i] == Setting(assignments[i].prop, source, assignments[i].value)
  {
    seq(|assignments|,
      i requires 0 <= i < |assignments| => Setting(assignments[i].prop, source, assignments[i].value))
  }

  /** The values before the filters are looked at. */
  ghost function Named(values: seq<Entry>, global: seq<Entry>, inputs: Inputs, lang: nat): (r: seq<Entry>)
    requires |values| == |global| && Fits(inputs, lang, |values|)
    ensures |r| == |values|
  {
    Applied(Applied(Unset(values, global, FILE), [Setting(lang, FILENAME, inputs.lang)]), At(FILE, inputs.modeLines))
  }

  /** The values before the language is looked at. */
  ghost function Filtered(values: seq<Entry>, global: seq<Entry>, inputs: Inputs, lang: nat): (r: seq<Entry>)
    requires |values| == |global| && Fits(inputs, lang, |values|)
    ensures |r| == |values|
  {
    var v := Named(values, global, inputs, lang);
    Applied(v, At(FILENAME, inputs.filters(v[lang].value)))
  }

  ghost function Rechecked(values: seq<Entry>, global: seq<Entry>, inputs: Inputs, lang: nat): (r: seq<Entry>)
    requires |values| == |global| && Fits(inputs, lang, |values|)
    ensures |r| == |values|
  {
    var v := Filtered(values, global, inputs, lang);
    Applied(Unset(v, global, LANG), At(LANG, inputs.langConfig(v[lang].value)))
  }

  /** All that is assigned on the way, in order. */
  ghost function Layers(values: seq<Entry>, global: seq<Entry>, inputs: Inputs, lang: nat): seq<Setting>
    requires |values| == |global| && Fits(inputs, lang, |values|)
  {
    [Setting(lang, FILENAME, inputs.lang)] + At(FILE, inputs.modeLines) +
    At(FILENAME, inputs.filters(Named(values, global, inputs, lang)[lang].value)) +
    At(LANG, inputs.langConfig(Filtered(values, global, inputs, lang)[lang].value))
  }

  /** A value of the user's counts more than anything that is worked out. */
  ghost predicate Fixed(e: Entry) {
    e.source < FILE
  }

  /** Working out a document's settings forgets everything about them but the user's values. */
  lemma Forgets(values: seq<Entry>, others: seq<Entry>, global: seq<Entry>, inputs: Inputs, lang: nat)
    requires |values| == |others| == |global| && Fits(inputs, lang, |values|)
    requires forall p :: 0 <= p < |values| && (Fixed(values[p]) || Fixed(others[p])) ==> values[p] == others[p]
    ensures Rechecked(values, global, inputs, lang) == Rechecked(others, global, inputs, lang)
  {
    assert Unset(values, global, FILE) == Unset(others, global, FILE);
  }

  /** What is worked out is one run of assignments over the user's and the global values: the layer of the
      language needs no resetting. */
  lemma OneRun(values: seq<Entry>, global: seq<Entry>, inputs: Inputs, lang: nat)
    requires |values| == |global| && Fits(inputs, lang, |values|)
    ensures InRange(Layers(values, global, inputs, lang), |values|)
    ensures Rechecked(values, global, inputs, lang) ==
      Applied(Unset(values, global, FILE), Layers(values, global, inputs, lang))
  {
    var start := Unset(values, global, FILE);
    var a, b := [Setting(lang, FILENAME, inputs.lang)], At(FILE, inputs.modeLines);
    var c := At(FILENAME, inputs.filters(Named(values, global, inputs, lang)[lang].value));
    var d := At(LANG, inputs.langConfig(Filtered(values, global, inputs, lang)[lang].value));
    AppliedJoin(start, a, b);
    AppliedJoin(start, a + b, c);
    AppliedJoin(start, a + b + c, d);
    var v := Filtered(values, global, inputs, lang);
    forall p | 0 <= p < |v| ensures Reset(v[p], global[p], LANG) == v[p] {
      LastWins(start, a + b + c, p);
    }
    assert Unset(v, global, LANG) == v;
  }

  /** Every setting is the user's, or the last one of the mode lines, or else of the name and the filters, or
      else of the language, or else the global one. */
  lemma Resolved(values: seq<Entry>, global: seq<Entry>, inputs: Inputs, lang: nat, p: nat)
    requires |values| == |global| && Fits(inputs, lang, |values|) && p < |values|
    ensures Wins(Reset(values[p], global[p], FILE), Layers(values, global, inputs, lang), p,
      Rechecked(values, global, inputs, lang)[p])
    ensures Fixed(values[p]) ==> Rechecked(values, global, inputs, lang)[p] == values[p]
  {
    OneRun(values, global, inputs, lang);
    LastWins(Unset(values, global, FILE), Layers(values, global, inputs, lang), p);
  }

  ghost predicate Assigns(a: seq<Assignment>, p: nat) {
    exists i :: 0 <= i < |a| && a[i].prop == p
  }

  /** The last value that is assigned to p. */
  ghost predicate Lasts(a: seq<Assignment>, p: nat, v: Value) {
    exists i :: 0 <= i < |a| && a[i] == Assignment(p, v) && forall j :: i < j < |a| ==> a[j].prop != p
  }

  /** What a setting comes to, from what it was at the beginning and what is assigned for three reasons. */
  ghost predicate ByPrecedence(base: Entry, mode: seq<Assignment>, names: seq<Assignment>, language: seq<Assignment>,
                               p: nat, e: Entry) {
    if base.source < FILE then e == base
    else if Assigns(mode, p) then Lasts(mode, p, e.value)
    else if base.source < FILENAME then e == base
    else if Assigns(names, p) then Lasts(names, p, e.value)
    else if base.source < LANG then e == base
    else if Assigns(language, p) then Lasts(language, p, e.value)
    else e == base
  }

  /** A part of a run, from one source. */
  ghost predicate PartOf(sets: seq<Setting>, k: nat, source: int, part: seq<Assignment>) {
    && k + |part| <= |sets|
    && forall i {:trigger part[i]} :: 0 <= i < |part| ==> sets[k + i] == Setting(part[i].prop, source, part[i].value)
  }

  lemma PartAt(sets: seq<Setting>, k: nat, source: int, part: seq<Assignment>, i: nat)
    requires PartOf(sets, k, source, part) && i < |part|
    ensures k + i < |sets| && sets[k + i] == Setting(part[i].prop, source, part[i].value)
  {
  }

  ghost predicate FromRun(sets: seq<Setting>, p: nat, e: Entry) {
    exists i :: Winner(sets, p, i) && e == Entry(sets[i].value, sets[i].source)
  }

  lemma PartCounts(was: Entry, sets: seq<Setting>, k: nat, source: int, part: seq<Assignment>, p: nat, e: Entry)
    requires Wins(was, sets, p, e) && PartOf(sets, k, source, part) && Assigns(part, p)
    ensures e.source <= source && (!FromRun(sets, p, e) ==> e == was && was.source < source)
  {
    var i :| 0 <= i < |part| && part[i].prop == p;
    assert sets[k + i] == Setting(part[i].prop, source, part[i].value);
  }

  lemma PartWins(sets: seq<Setting>, k: nat, source: int, part: seq<Assignment>, p: nat, i: int)
    requires PartOf(sets, k, source, part) && Winner(sets, p, i) && k <= i < k + |part|
    ensures sets[i].source == source && Lasts(part, p, sets[i].value)
  {
    var n := i - k;
    assert sets[k + n] == Setting(part[n].prop, source, part[n].value);
    forall j | n < j < |part| ensures part[j].prop != p {
      assert sets[k + j] == Setting(part[j].prop, source, part[j].value);
    }
    LastIs(part, p, sets[i].value, n);
  }

  lemma WinsByPrecedence(base: Entry, name: Assignment, mode: seq<Assignment>, filters: seq<Assignment>,
                         language: seq<Assignment>, p: nat, e: Entry)
    requires Wins(base, At(FILENAME, [name]) + At(FILE, mode) + At(FILENAME, filters) + At(LANG, language), p, e)
    ensures ByPrecedence(base, mode, [name] + filters, language, p, e)
  {
    hide Lasts, Assigns, Wins, Winner, PartOf, FromRun;
    var sets := At(FILENAME, [name]) + At(FILE, mode) + At(FILENAME, filters) + At(LANG, language);
    Parts(name, mode, filters, language);
    var m, n := 1 + |mode|, 1 + |mode| + |filters|;
    if Assigns(mode, p) {
      PartCounts(base, sets, 1, FILE, mode, p, e);
    }
    if Assigns([name], p) {
      PartCounts(base, sets, 0, FILENAME, [name], p, e);
    }
    if Assigns(filters, p) {
      PartCounts(base, sets, m, FILENAME, filters, p, e);
    }
    if Assigns(language, p) {
      PartCounts(base, sets, n, LANG, language, p, e);
    }
    JoinedAssigns(name, filters, p);
    if FromRun(sets, p, e) {
      RunWins(sets, name, mode, filters, language, p, e);
    }
    LastAssigns(mode, p, e.value);
    LastAssigns([name] + filters, p, e.value);
    LastAssigns(language, p, e.value);
    BaseWins(base, sets, p, e);
  }

  lemma Parts(name: Assignment, mode: seq<Assignment>, filters: seq<Assignment>, language: seq<Assignment>)
    ensures var sets := At(FILENAME, [name]) + At(FILE, mode) + At(FILENAME, filters) + At(LANG, language);
      && |sets| == 1 + |mode| + |filters| + |language|
      && PartOf(sets, 0, FILENAME, [name]) && PartOf(sets, 1, FILE, mode)
      && PartOf(sets, 1 + |mode|, FILENAME, filters) && PartOf(sets, 1 + |mode| + |filters|, LANG, language)
  {
  }

  lemma JoinedAssigns(name: Assignment, filters: seq<Assignment>, p: nat)
    ensures Assigns([name] + filters, p) <==> Assigns([name], p) || Assigns(filters, p)
  {
    var names := [name] + filters;
    assert names[0] == name && forall i :: 0 <= i < |filters| ==> names[i + 1] == filters[i];
    assert [name][0] == name;
  }

  lemma LastAssigns(a: seq<Assignment>, p: nat, v: Value)
    ensures Lasts(a, p, v) ==> Assigns(a, p)
  {
  }

  lemma BaseWins(base: Entry, sets: seq<Setting>, p: nat, e: Entry)
    requires Wins(base, sets, p, e)
    ensures e.source <= base.source && (e == base || FromRun(sets, p, e))
  {
  }

  /** A winner among all assignments is the last one of its part. */
  lemma RunWins(sets: seq<Setting>, name: Assignment, mode: seq<Assignment>, filters: seq<Assignment>,
                language: seq<Assignment>, p: nat, e: Entry)
    requires |sets| == 1 + |mode| + |filters| + |language|
    requires PartOf(sets, 0, FILENAME, [name]) && PartOf(sets, 1, FILE, mode)
    requires PartOf(sets, 1 + |mode|, FILENAME, filters) && PartOf(sets, 1 + |mode| + |filters|, LANG, language)
    requires FromRun(sets, p, e)
    ensures || (e.source == FILE && Lasts(mode, p, e.value))
            || (e.source == FILENAME && Lasts([name] + filters, p, e.value))
            || (e.source == LANG && Lasts(language, p, e.value))
  {
    hide PartOf, Lasts;
    var m, n := 1 + |mode|, 1 + |mode| + |filters|;
    var i :| Winner(sets, p, i) && e == Entry(sets[i].value, sets[i].source);
    if 1 <= i < m {
      PartWins(sets, 1, FILE, mode, p, i);
    } else if n <= i {
      PartWins(sets, n, LANG, language, p, i);
    } else {
      NamesWin(sets, name, mode, filters, p, i);
    }
  }

  /** The name's assignment comes before those of the filters. */
  lemma NamesWin(sets: seq<Setting>, name: Assignment, mode: seq<Assignment>, filters: seq<Assignment>, p: nat, i: int)
    requires PartOf(sets, 0, FILENAME, [name]) && PartOf(sets, 1 + |mode|, FILENAME, filters)
    requires Winner(sets, p, i) && (i == 0 || 1 + |mode| <= i < 1 + |mode| + |filters|)
    ensures sets[i].source == FILENAME && Lasts([name] + filters, p, sets[i].value)
  {
    hide PartOf, Lasts;
    var names, m := [name] + filters, 1 + |mode|;
    var n := if i == 0 then 0 else i - m + 1;
    PartAt(sets, 0, FILENAME, [name], 0);
    if i > 0 {
      PartAt(sets, m, FILENAME, filters, i - m);
    }
    assert sets[i] == Setting(names[n].prop, FILENAME, names[n].value);
    forall j | n < j < |names| ensures names[j].prop != p {
      PartAt(sets, m, FILENAME, filters, j - 1);
      assert sets[m + j - 1] == Setting(names[j].prop, FILENAME, names[j].value);
    }
    LastIs(names, p, sets[i].value, n);
  }

  /** Mode lines count more than the name and the filters, those more than the language, that more than global
      values; the last value assigned for one of these reasons counts. A setting from a source that counts more than
      what is assigned for a reason, like one the user has set, stays. */
  lemma Ranked(values: seq<Entry>, global: seq<Entry>, inputs: Inputs, lang: nat, p: nat)
    requires |values| == |global| && Fits(inputs, lang, |values|) && p < |values|
    ensures var e := Rechecked(values, global, inputs, lang);
      var base := if values[p].source < FILE then values[p] else global[p];
      var names := [Assignment(lang, inputs.lang)] + inputs.filters(Named(values, global, inputs, lang)[lang].value);
      ByPrecedence(base, inputs.modeLines, names, inputs.langConfig(e[lang].value), p, e[p])
  {
    hide Wins, Rechecked, Named, Filtered, ByPrecedence;
    Resolved(values, global, inputs, lang, p);
    LanguageStays(values, global, inputs, lang);
    var first := Named(values, global, inputs, lang)[lang].value;
    var last := Filtered(values, global, inputs, lang)[lang].value;
    assert At(FILENAME, [Assignment(lang, inputs.lang)]) == [Setting(lang, FILENAME, inputs.lang)];
    WinsByPrecedence(Reset(values[p], global[p], FILE), Assignment(lang, inputs.lang), inputs.modeLines,
      inputs.filters(first), inputs.langConfig(last), p, Rechecked(values, global, inputs, lang)[p]);
  }

  /** With defaults as global values: what the user has not set comes from the mode lines, else from the name and the
      filters, else from the language, else from the default. */
  lemma Precedence(values: seq<Entry>, global: seq<Entry>, inputs: Inputs, lang: nat, p: nat)
    requires |values| == |global| && Fits(inputs, lang, |values|) && p < |values| && global[p].source == AUTO
    ensures var e := Rechecked(values, global, inputs, lang);
      var names := [Assignment(lang, inputs.lang)] + inputs.filters(Named(values, global, inputs, lang)[lang].value);
      var language := inputs.langConfig(e[lang].value);
      && (values[p].source == USER ==> e[p] == values[p])
      && (values[p].source in {FILE, FILENAME, LANG, AUTO} ==>
        if Assigns(inputs.modeLines, p) then Lasts(inputs.modeLines, p, e[p].value)
        else if Assigns(names, p) then Lasts(names, p, e[p].value)
        else if Assigns(language, p) then Lasts(language, p, e[p].value)
        else e[p] == global[p])
  {
    hide Rechecked, Named, Lasts, Assigns;
    Ranked(values, global, inputs, lang, p);
  }

  /** The language the filters are looked at for is the user's, or that of the last mode line that names one, or the
      one the name stands for. */
  lemma LanguageNamed(values: seq<Entry>, global: seq<Entry>, inputs: Inputs, lang: nat)
    requires |values| == |global| && Fits(inputs, lang, |values|) && global[lang].source == AUTO
    ensures var first := Named(values, global, inputs, lang)[lang];
      && (values[lang].source == USER ==> first == values[lang])
      && (values[lang].source in {FILE, FILENAME, LANG, AUTO} ==>
        if Assigns(inputs.modeLines, lang) then Lasts(inputs.modeLines, lang, first.value)
        else first.value == inputs.lang)
  {
    hide Wins, Applied, Lasts, ByPrecedence;
    var start, name := Unset(values, global, FILE), Assignment(lang, inputs.lang);
    var a, b := [Setting(lang, FILENAME, inputs.lang)], At(FILE, inputs.modeLines);
    AppliedJoin(start, a, b);
    LastWins(start, a + b, lang);
    assert At(FILENAME, [name]) + At(FILE, inputs.modeLines) + At(FILENAME, []) + At(LANG, []) == a + b;
    WinsByPrecedence(start[lang], name, inputs.modeLines, [], [], lang, Applied(start, a + b)[lang]);
    FirstOnly(name, start[lang], inputs.modeLines, Applied(start, a + b)[lang]);
  }

  lemma FirstOnly(name: Assignment, base: Entry, mode: seq<Assignment>, e: Entry)
    requires ByPrecedence(base, mode, [name] + [], [], name.prop, e)
    ensures base.source >= FILENAME ==>
      if Assigns(mode, name.prop) then Lasts(mode, name.prop, e.value) else e.value == name.value
    ensures base.source < FILE ==> e == base
  {
    assert [name] + [] == [name] && [name][0] == name;
  }

  lemma LastIs(a: seq<Assignment>, p: nat, v: Value, i: int)
    requires 0 <= i < |a| && a[i] == Assignment(p, v) && forall j :: i < j < |a| ==> a[j].prop != p
    ensures Lasts(a, p, v)
  {
  }

  /** The settings of a language are those of the language the document ends up with. */
  lemma LanguageStays(values: seq<Entry>, global: seq<Entry>, inputs: Inputs, lang: nat)
    requires |values| == |global| && Fits(inputs, lang, |values|)
    ensures Rechecked(values, global, inputs, lang)[lang] == Filtered(values, global, inputs, lang)[lang]
  {
    var v := Filtered(values, global, inputs, lang);
    var a, b := [Setting(lang, FILENAME, inputs.lang)], At(FILE, inputs.modeLines);
    var c := At(FILENAME, inputs.filters(Named(values, global, inputs, lang)[lang].value));
    var start := Unset(values, global, FILE);
    AppliedJoin(start, a, b);
    AppliedJoin(start, a + b, c);
    LastWins(start, a + b + c, lang);
    assert (a + b + c)[0] == a[0];
    LastWins(Unset(v, global, LANG), At(LANG, inputs.langConfig(v[lang].value)), lang);
  }

  /** Doing it twice changes nothing more. */
  lemma Idempotent(values: seq<Entry>, global: seq<Entry>, inputs: Inputs, lang: nat)
    requires |values| == |global| && Fits(inputs, lang, |values|)
    ensures Rechecked(Rechecked(values, global, inputs, lang), global, inputs, lang) ==
      Rechecked(values, global, inputs, lang)
  {
    var once := Rechecked(values, global, inputs, lang);
    forall p | 0 <= p < |values| ensures Reset(once[p], global[p], FILE) == Reset(values[p], global[p], FILE) {
      Resolved(values, global, inputs, lang, p);
    }
    assert Unset(once, global, FILE) == Unset(values, global, FILE);
  }

  // ----- the program

  class Config {
    var values: seq<Entry>
    var notified: set<nat>

    constructor (values: seq<Entry>)
      ensures this.values == values && notified == {}
    {
      this.values, notified := values, {};
    }

    method SetValue(p: nat, source: int, value: Value)
      requires p < |values|
      modifies this
      ensures values == old(values)[p := Set(old(values)[p], source, value)]
      ensures notified == old(notified) + if values[p] != old(values[p]) then {p} else {}
    {
      var val := values[p];
      if val.source >= source && (val.source != source || val.value != value) {
        values := values[p := Entry(value, source)];
        notified := notified + {p};
      }
    }

    /** Assigns what a text says, one after the other. */
    method Assign(assignments: seq<Assignment>, source: int)
      requires forall i :: 0 <= i < |assignments| ==> assignments[i].prop < |values|
      modifies this
      ensures values == Applied(old(values), At(source, assignments))
      ensures forall p :: 0 <= p < |values| && values[p] != old(values[p]) ==> p in notified
    {
      hide Applied;
      ghost var sets := At(source, assignments);
      NoneApplied(values);
      var i := 0;
      while i < |assignments|
        invariant i <= |assignments| && values == Applied(old(values), sets[..i]) && old(notified) <= notified
        invariant forall p :: 0 <= p < |values| && values[p] != old(values[p]) ==> p in notified
      {
        assert sets[..i + 1] == sets[..i] + [sets[i]];
        AppliedNext(old(values), sets[..i], sets[i]);
        SetValue(assignments[i].prop, source, assignments[i].value);
        i := i + 1;
      }
      assert sets[..i] == sets;
    }

    method UpdateFromGlobal(global: Config, p: nat)
      requires global != this && p < |values| == |global.values|
      modifies this
      ensures values == old(values)[p :=
        if global.values[p].source <= old(values)[p].source then global.values[p] else old(values)[p]]
      ensures notified == old(notified) + if global.values[p].source <= old(values)[p].source then {p} else {}
    {
      if global.values[p].source <= values[p].source {
        values := values[p := global.values[p]];
        notified := notified + {p};
      }
    }

    /** Defaults and then global values take the place of everything from a source on; in the global settings
        themselves the defaults stay. */
    method UnsetBySource(global: Config, defaults: seq<Value>, source: int)
      requires |values| == |global.values| == |defaults|
      requires global != this ==> forall p :: 0 <= p < |values| ==> global.values[p].source <= AUTO
      modifies this
      ensures global != this ==> values == Unset(old(values), global.values, source)
      ensures global == this ==> values == Unset(old(values), Defaults(defaults), source)
      ensures |values| == |old(values)| && forall p :: 0 <= p < |values| ==>
        values[p] ==
          if old(values)[p].source < source then old(values)[p]
          else if global == this then Entry(defaults[p], AUTO) else global.values[p]
      ensures forall p :: 0 <= p < |values| && values[p] != old(values[p]) ==> p in notified
    {
      ghost var rest := if global == this then Defaults(defaults) else global.values;
      var i := 0;
      while i < |values|
        invariant i <= |values| == |old(values)|
        invariant global != this ==> rest == global.values
        invariant forall p :: 0 <= p < |values| ==>
          values[p] == if p < i then Reset(old(values)[p], rest[p], source) else old(values)[p]
        invariant forall p :: 0 <= p < |values| && values[p] != old(values[p]) ==> p in notified
      {
        if values[i].source >= source {
          values := values[i := Entry(defaults[i], AUTO)];
          if global != this {
            UpdateFromGlobal(global, i);
          }
          notified := notified + {i};
        }
        i := i + 1;
      }
    }
  }

  /** The global settings and those of all documents. */
  class Settings {
    const global: Config
    var defaults: seq<Value>
    var instances: seq<Config>

    constructor ()
      ensures Valid() && InSync() && |defaults| == 0 && instances == [] && fresh(global)
    {
      global := new Config([]);
      defaults, instances := [], [];
    }

    ghost predicate Valid()
      reads this, global, instances
    {
      && |defaults| == |global.values|
      && (forall p :: 0 <= p < |global.values| ==> global.values[p].source <= AUTO)
      && (forall i :: 0 <= i < |instances| ==>
        instances[i] != global && |instances[i].values| == |global.values|)
      && (forall i, j :: 0 <= i < j < |instances| ==> instances[i] != instances[j])
    }

    /** Nowhere does a value hide a global one that counts as much or more. */
    ghost predicate InSync()
      requires Valid()
      reads this, global, instances
    {
      forall i :: 0 <= i < |instances| ==> Synced(instances[i])
    }

    ghost predicate Synced(config: Config)
      reads global, config
    {
      && |config.values| == |global.values|
      && forall p :: 0 <= p < |config.values| ==>
        config.values[p].source < global.values[p].source || config.values[p] == global.values[p]
    }

    method NewConfig() returns (config: Config)
      requires Valid()
      modifies this`instances
      ensures Valid() && instances == [config] + old(instances) && fresh(config) && config.values == global.values
      ensures old(InSync()) ==> InSync()
    {
      config := new Config(global.values);
      instances := [config] + instances;
    }

    /** A new setting, with its default everywhere. */
    method Install(default: Value)
      requires Valid()
      modifies this`defaults, global, instances
      ensures Valid() && defaults == old(defaults) + [default]
      ensures global.values == old(global.values) + [Entry(default, AUTO)]
      ensures forall i :: 0 <= i < |instances| ==>
        instances[i].values == old(instances[i].values) + [Entry(default, AUTO)]
      ensures old(InSync()) ==> InSync()
    {
      global.values := global.values + [Entry(default, AUTO)];
      defaults := defaults + [default];
      var i := 0;
      while i < |instances|
        invariant i <= |instances| && global.values == old(global.values) + [Entry(default, AUTO)]
        invariant defaults == old(defaults) + [default] && instances == old(instances)
        invariant forall j :: 0 <= j < |instances| ==>
          instances[j].values ==
            if j < i then old(instances[j].values) + [Entry(default, AUTO)] else old(instances[j].values)
      {
        instances[i].values := instances[i].values + [global.values[|global.values| - 1]];
        i := i + 1;
      }
    }

    /** A changed global value goes to every document where nothing hides it. */
    method Spread(p: nat)
      requires Valid() && p < |global.values|
      modifies instances
      ensures Valid() && global.values == old(global.values)
      ensures forall i :: 0 <= i < |instances| ==> instances[i].values == Spreading(old(instances[i].values), p)
    {
      var i := 0;
      while i < |instances|
        invariant i <= |instances| && Valid()
        invariant forall j :: 0 <= j < |instances| ==>
          instances[j].values == if j < i then Spreading(old(instances[j].values), p)
            else old(instances[j].values)
      {
        instances[i].UpdateFromGlobal(global, p);
        i := i + 1;
      }
    }

    ghost function Spreading(values: seq<Entry>, p: nat): (r: seq<Entry>)
      requires p < |values| == |global.values|
      reads global
      ensures |r| == |values|
    {
      values[p := if global.values[p].source <= values[p].source then global.values[p] else values[p]]
    }

    /** Sets global values; when all are set, those that were changed go to the documents. */
    method SetGlobal(assignments: seq<Assignment>, source: int)
      requires Valid() && forall i :: 0 <= i < |assignments| ==> assignments[i].prop < |global.values|
      modifies global, instances
      ensures Valid() && global.values == Applied(old(global.values), At(source, assignments))
      ensures forall p :: 0 <= p < |global.values| && global.values[p] != old(global.values)[p] ==> p in global.notified
      ensures forall i, p :: 0 <= i < |instances| && 0 <= p < |global.values| ==>
        instances[i].values[p] ==
          if p in global.notified && global.values[p].source <= old(instances[i].values)[p].source then global.values[p]
          else old(instances[i].values)[p]
      ensures old(InSync()) ==> InSync()
    {
      hide Applied;
      global.notified := {};
      global.Assign(assignments, source);
      LowerSources(old(global.values), assignments, source);
      ghost var was, changed := global.values, global.notified;
      var p := 0;
      while p < |global.values|
        invariant Valid() && p <= |global.values| && instances == old(instances)
        invariant global.values == was && global.notified == changed
        invariant forall i, q :: 0 <= i < |instances| && 0 <= q < |was| ==>
          instances[i].values[q] ==
            if q < p then Told(old(instances[i].values)[q], q) else old(instances[i].values)[q]
      {
        if p in global.notified {
          Spread(p);
        }
        p := p + 1;
      }
    }

    /** A document's value when the changed global values have come to it. */
    ghost function Told(e: Entry, p: nat): Entry
      requires p < |global.values|
      reads global
    {
      if p in global.notified && global.values[p].source <= e.source then global.values[p] else e
    }

    lemma LowerSources(values: seq<Entry>, assignments: seq<Assignment>, source: int)
      requires forall i :: 0 <= i < |assignments| ==> assignments[i].prop < |values|
      ensures var v := Applied(values, At(source, assignments));
        forall p :: 0 <= p < |values| ==> v[p].source <= values[p].source
    {
      forall p | 0 <= p < |values|
        ensures Applied(values, At(source, assignments))[p].source <= values[p].source
      {
        LastWins(values, At(source, assignments), p);
      }
    }

    /** Sets a value of one document. */
    method SetFor(config: Config, p: nat, source: int, value: Value)
      requires Valid() && config in instances && p < |config.values|
      modifies config
      ensures Valid() && config.values == old(config.values)[p := Set(old(config.values)[p], source, value)]
      ensures old(InSync()) ==>
        (InSync() <==>
          old(config.values)[p].source < source || source < global.values[p].source ||
          Entry(value, source) == global.values[p])
    {
      config.SetValue(p, source, value);
      assert Set(old(config.values)[p], source, value) == config.values[p];
    }

    /** Works out a document's settings, unless that is going on already. */
    method Recheck(doc: Document, inputs: Inputs, lang: nat)
      requires Valid() && doc.config in instances && Fits(inputs, lang, |global.values|)
      modifies doc, doc.config
      ensures Valid() && doc.rechecking == old(doc.rechecking)
      ensures old(doc.rechecking) ==> unchanged(doc) && unchanged(doc.config)
      ensures !old(doc.rechecking) ==>
        doc.config.values == Rechecked(old(doc.config.values), global.values, inputs, lang)
      ensures old(InSync()) && (forall p :: 0 <= p < |global.values| ==> LANG < global.values[p].source) ==> InSync()
    {
      hide Applied, Unset, At;
      if doc.rechecking {
        return;
      }
      doc.rechecking := true;
      var config := doc.config;
      config.UnsetBySource(global, defaults, FILE);
      config.Assign([Assignment(lang, inputs.lang)], FILENAME);
      assert At(FILENAME, [Assignment(lang, inputs.lang)]) == [Setting(lang, FILENAME, inputs.lang)];
      config.Assign(inputs.modeLines, FILE);
      config.Assign(inputs.filters(config.values[lang].value), FILENAME);
      var value := config.values[lang].value;
      config.UnsetBySource(global, defaults, LANG);
      config.Assign(inputs.langConfig(value), LANG);
      assert config.values == Rechecked(old(config.values), global.values, inputs, lang);
      forall p | old(InSync()) && 0 <= p < |global.values| && LANG < global.values[p].source
        ensures config.values[p].source < global.values[p].source || config.values[p] == global.values[p]
      {
        StaysInSync(old(config.values), global.values, inputs, lang, p);
      }
      doc.rechecking := false;
    }
  }

  class Document {
    const config: Config
    var rechecking: bool

    constructor (config: Config)
      ensures this.config == config && !rechecking
    {
      this.config, rechecking := config, false;
    }
  }

  /** With global values that count less than those of a language, working out keeps documents in step with them. */
  lemma StaysInSync(values: seq<Entry>, global: seq<Entry>, inputs: Inputs, lang: nat, p: nat)
    requires |values| == |global| && Fits(inputs, lang, |values|) && p < |values| && LANG < global[p].source
    requires values[p].source < global[p].source || values[p] == global[p]
    ensures var e := Rechecked(values, global, inputs, lang)[p]; e.source < global[p].source || e == global[p]
  {
    hide Applied;
    Resolved(values, global, inputs, lang, p);
  }
}
