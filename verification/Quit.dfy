/** Leaving the program: quitting, closing the last window, a session that ends, and signals (src/mooapp/mooapp.cpp,
    src/mooedit/mooeditor.cpp). Dialogs run the main loop again, so any of these can happen inside another. */
module Quits {

  type Window = nat

  datatype Option<T> = None | Some(value: T)

  /** What closing a window depends on: a busy document forbids it, an unsaved one makes the program ask. */
  datatype Docs = Clean | Unsaved | Busy

  /** What can come from outside: in the main loop, or while a dialog waits for an answer. */
  datatype Event = Quit | QueryEnd | Close(window: Window) | Open | Change(window: Window, docs: Docs) | Signal |
    Answer(cancel: bool)

  /** The program with what it knows about itself, its windows (numbered as they are opened), and the outside: the
      events to come, the inhibitors the session manager holds, the session in the file, whether the process has
      ended, and whether that is a signal's doing. The last fields only observe: how often the quit body has run,
      how many queries were answered, whether an attempt to quit or the quit body is under way, whether a query
      has come and the program is not done with it, whether a dialog has waited then without an inhibitor, and the
      two ways that can come about. */
  datatype State = State(
    running: bool,
    inTryQuit: bool,
    savedInTryQuit: bool,
    inAfterClose: bool,
    cookie: nat,
    sessionFile: bool,
    session: Option<seq<Window>>,
    windows: seq<Window>,
    docs: map<Window, Docs>,
    nextWindow: Window,
    script: seq<Event>,
    held: set<nat>,
    cookies: nat,
    written: Option<seq<Window>>,
    inSignal: bool,
    exited: bool,
    quits: nat,
    queries: nat,
    quitting: bool,
    due: bool,
    exposed: bool,
    again: bool,
    bodyAsks: bool)

  datatype Result = Result(s: State, yes: bool)

  datatype Stepped = Stepped(s: State, answer: Option<bool>)

  function DocsOf(docs: map<Window, Docs>, window: Window): Docs {
    if window in docs then docs[window] else Clean
  }

  /** Different windows in the order they were opened in. */
  ghost predicate Opened(windows: seq<Window>, next: Window) {
    && (forall i, j :: 0 <= i < j < |windows| ==> windows[i] < windows[j])
    && (forall i :: 0 <= i < |windows| ==> windows[i] < next)
  }

  lemma OneMore(windows: seq<Window>, next: Window)
    requires Opened(windows, next)
    ensures Opened(windows + [next], next + 1) && Only(windows + [next], windows, next)
  {
  }

  lemma OneLess(windows: seq<Window>, next: Window, i: nat)
    requires Opened(windows, next) && i < |windows|
    ensures var r := windows[..i] + windows[i + 1..];
      Opened(r, next) && forall w :: w in r <==> w in windows && w != windows[i]
  {
    var r := windows[..i] + windows[i + 1..];
    assert forall j :: 0 <= j < |r| ==> r[j] == windows[if j < i then j else j + 1];
    forall w | w in windows && w != windows[i] ensures w in r {
      var j :| 0 <= j < |windows| && windows[j] == w;
      assert r[if j < i then j else j - 1] == w;
    }
  }

  lemma Known(windows: seq<Window>, next: Window)
    requires Opened(windows, next)
    ensures forall w :: w in windows ==> w < next
  {
  }

  /** Whatever is open now was open before, or has been opened since. */
  ghost predicate Only(now: seq<Window>, was: seq<Window>, next: Window) {
    forall w :: w in now ==> w in was || next <= w
  }

  lemma OnlyTrans(now: seq<Window>, mid: seq<Window>, was: seq<Window>, midNext: Window, next: Window)
    requires Only(now, mid, midNext) && Only(mid, was, next) && next <= midNext
    ensures Only(now, was, next)
  {
  }

  lemma OnlySelf(windows: seq<Window>, next: Window)
    ensures Only(windows, windows, next)
  {
  }

  lemma GoneStays(now: seq<Window>, was: seq<Window>, next: Window)
    requires Only(now, was, next)
    ensures forall w :: w < next && w !in was ==> w !in now
  {
  }

  function Index(windows: seq<Window>, window: Window): (i: nat)
    requires window in windows
    ensures i < |windows| && windows[i] == window
  {
    if windows[0] == window then 0 else 1 + Index(windows[1..], window)
  }

  /** The list without a window. */
  function Without(windows: seq<Window>, window: Window): (r: seq<Window>)
    ensures window in windows ==> |r| == |windows| - 1
  {
    if window !in windows then windows else
      var i := Index(windows, window);
      windows[..i] + windows[i + 1..]
  }

  lemma WithoutIs(windows: seq<Window>, next: Window, window: Window)
    requires Opened(windows, next) && window in windows
    ensures Opened(Without(windows, window), next) && Only(Without(windows, window), windows, next)
    ensures forall w :: w in Without(windows, window) <==> w in windows && w != window
  {
    OneLess(windows, next, Index(windows, window));
  }

  // ----- what is kept

  /** The session manager holds exactly the inhibitor with a cookie; 0 stands for none. */
  ghost predicate Holds(held: set<nat>, cookie: nat) {
    held == if cookie == 0 then {} else {cookie}
  }

  lemma HoldsNone(held: set<nat>, cookie: nat)
    requires Holds(held, cookie)
    ensures Holds(if cookie != 0 then held - {cookie} else held, 0)
  {
  }

  lemma HoldsOne(held: set<nat>, cookie: nat)
    requires Holds(held, 0) && cookie != 0
    ensures Holds(held + {cookie}, cookie)
  {
  }

  /** The session manager holds exactly the inhibitor whose cookie is kept, the quit body has run unless the
      program is running, and what the flags say about each other. */
  ghost predicate Base(s: State) {
    && Holds(s.held, s.cookie) && s.cookie <= s.cookies
    && s.quits == (if s.running then 0 else 1)
    && (s.savedInTryQuit ==> s.inTryQuit) && (s.inTryQuit ==> s.savedInTryQuit || s.inAfterClose)
    && (s.inTryQuit ==> s.quitting && (s.running || s.inSignal || s.exited))
    && Opened(s.windows, s.nextWindow)
  }

  /** When events come: nobody waits for an answer to a query unless the program is quitting. */
  ghost predicate Valid(s: State) {
    && Base(s) && !s.exited && (s.inAfterClose && s.running ==> s.inTryQuit) && (s.due ==> s.quitting)
    && (s.quitting ==> s.inTryQuit || !s.running) && (s.inTryQuit ==> s.savedInTryQuit)
  }

  /** What every step keeps, with all that happens inside it, also if the process ends there. */
  ghost predicate Kept(s: State, t: State) {
    && Base(t) && t.sessionFile == s.sessionFile && s.queries <= t.queries && s.nextWindow <= t.nextWindow
    && (!s.running ==> !t.running && t.written == s.written)
    && (s.again ==> t.again) && (s.bodyAsks ==> t.bodyAsks) && (s.exposed ==> t.exposed)
    && |t.script| <= |s.script| && (s.inSignal ==> !t.exited) && (!t.exited ==> Steady(s, t))
  }

  /** What every step keeps that comes back. Flags are as before. The quit body has not run inside an attempt to
      quit, and nothing is taken down after it. An attempt to quit takes the session down once. An inhibitor is
      given back exactly when the session manager is answered. Events are used up, and only they open windows. */
  ghost predicate Steady(s: State, t: State) {
    && t.inTryQuit == s.inTryQuit && t.savedInTryQuit == s.savedInTryQuit && t.inAfterClose == s.inAfterClose
    && t.inSignal == s.inSignal && t.quitting == s.quitting && (s.due || !s.quitting ==> t.due == s.due)
    && (s.inTryQuit ==> t.running == s.running) && (!s.running || s.savedInTryQuit ==> t.session == s.session)
    && (s.cookie == 0 ==> t.cookie == 0)
    && (s.cookie != 0 && t.running ==> t.cookie == if t.queries == s.queries then s.cookie else 0)
    && Only(t.windows, s.windows, s.nextWindow)
    && (|t.script| == |s.script| ==> |t.windows| <= |s.windows|)
  }

  /** A dialog has waited without an inhibitor exactly if one of the two things has happened. */
  ghost predicate Exact(s: State) {
    s.exposed <==> s.again || s.bodyAsks
  }

  /** The same for a dialog that is about to wait. */
  ghost predicate ExactNext(s: State) {
    s.exposed || (s.due && s.cookie == 0) <==> s.again || s.bodyAsks
  }

  predicate AsksAbout(windows: seq<Window>, docs: map<Window, Docs>, window: Window) {
    window in windows && DocsOf(docs, window) == Unsaved
  }

  /** Closing the windows one after the other comes to one that the program asks about. */
  predicate Asks(windows: seq<Window>, docs: map<Window, Docs>, all: seq<Window>) {
    all != [] &&
    if all[0] in windows && DocsOf(docs, all[0]) != Clean then DocsOf(docs, all[0]) == Unsaved
    else Asks(windows, docs, all[1..])
  }

  lemma {:induction false} AsksSame(was: seq<Window>, now: seq<Window>, docs: map<Window, Docs>, all: seq<Window>)
    requires forall w :: DocsOf(docs, w) != Clean ==> (w in was <==> w in now)
    ensures Asks(was, docs, all) == Asks(now, docs, all)
  {
    if all != [] {
      AsksSame(was, now, docs, all[1..]);
    }
  }

  // ----- what the steps do

  ghost function SessionTaken(s: State): (r: State)
    ensures r.script == s.script && r.windows == s.windows
  {
    if s.sessionFile then s.(session := Some(s.windows)) else s
  }

  ghost function WillClose(s: State): (r: State)
    ensures r.script == s.script && r.windows == s.windows
  {
    if s.running && !s.savedInTryQuit && |s.windows| == 1 then SessionTaken(s) else s
  }

  ghost function AfterClose(s: State): (t: State)
    ensures |t.script| <= |s.script| && (|t.script| == |s.script| ==> |t.windows| <= |s.windows|)
    decreases |s.script|, |s.windows|, 6, 0
  {
    hide *;
    if !s.running || s.inTryQuit || s.windows != [] then s else
      var t := QuitRun(s.(inAfterClose := true)).s;
      if t.exited then t else t.(inAfterClose := false)
  }

  ghost function QuitRun(s: State): (r: Result)
    ensures |r.s.script| <= |s.script| && (|r.s.script| == |s.script| ==> |r.s.windows| <= |s.windows|)
    decreases |s.script|, |s.windows|, 5, 0
  {
    hide *;
    if s.inTryQuit || !s.running then Result(s, true) else
      var r := TryQuitRun(s);
      if r.s.exited then r
      else if !r.yes then Result(Settled(r.s, s), false)
      else
        var t := BodyRun(r.s);
        if t.exited then Result(t, true) else Result(Settled(t, s), true)
  }

  /** The program is done with quitting; it is not done with a query that is being answered. */
  ghost function Settled(t: State, s: State): (r: State)
    ensures r.script == t.script && r.windows == t.windows
  {
    t.(quitting := false, due := s.due)
  }

  ghost function TryQuitRun(s: State): (r: Result)
    ensures |r.s.script| <= |s.script| && (|r.s.script| == |s.script| ==> |r.s.windows| <= |s.windows|)
    decreases |s.script|, |s.windows|, 4, 0
  {
    hide *;
    var t := Trying(s);
    var r := CloseList(t, t.windows);
    if r.s.exited then r else Result(GivenUp(r.s), r.yes)
  }

  ghost function GivenUp(s: State): (r: State)
    ensures r.script == s.script && r.windows == s.windows
  {
    s.(savedInTryQuit := false, inTryQuit := false)
  }

  ghost function Trying(s: State): (r: State)
    ensures r.script == s.script && r.windows == s.windows
  {
    if s.inAfterClose then Begun(s) else SessionTaken(Begun(s).(savedInTryQuit := true))
  }

  ghost function Begun(s: State): (r: State)
    ensures r.script == s.script && r.windows == s.windows
  {
    s.(inTryQuit := true, quitting := true)
  }

  ghost function BodyRun(s: State): (t: State)
    ensures |t.script| <= |s.script| && (|t.script| == |s.script| ==> |t.windows| <= |s.windows|)
    decreases |s.script|, |s.windows|, 4, 0
  {
    hide *;
    if !s.running then s else
      var r := CloseList(Stopped(s), s.windows);
      if !r.s.exited && r.s.sessionFile then r.s.(written := r.s.session) else r.s
  }

  ghost function Stopped(s: State): (r: State)
    ensures r.script == s.script && r.windows == s.windows
  {
    Released(Halted(s))
  }

  ghost function Halted(s: State): (r: State)
    ensures r.script == s.script && r.windows == s.windows
  {
    Counted(Marked(s))
  }

  ghost function Counted(s: State): (r: State)
    ensures r.script == s.script && r.windows == s.windows
  {
    s.(running := false, quits := s.quits + 1)
  }

  ghost function Marked(s: State): (r: State)
    ensures r.script == s.script && r.windows == s.windows
  {
    var asks := s.due && Asks(s.windows, s.docs, s.windows);
    s.(quitting := true, bodyAsks := s.bodyAsks || asks)
  }

  ghost function Released(s: State): (r: State)
    ensures r.script == s.script && r.windows == s.windows
    ensures r.again == s.again && r.exposed == s.exposed && r.bodyAsks == s.bodyAsks
    ensures r.exited == s.exited && r.inSignal == s.inSignal
  {
    s.(held := if s.cookie != 0 then s.held - {s.cookie} else s.held, cookie := 0)
  }

  ghost function CloseList(s: State, all: seq<Window>): (r: Result)
    ensures |r.s.script| <= |s.script| && (|r.s.script| == |s.script| ==> |r.s.windows| <= |s.windows|)
    decreases |s.script|, |s.windows|, 3, |all|
  {
    hide *;
    if all == [] then Result(s, true) else
      var r := CloseRun(s, all[0]);
      if r.s.exited || !r.yes then r else CloseList(r.s, all[1..])
  }

  ghost function CloseRun(s: State, window: Window): (r: Result)
    ensures |r.s.script| <= |s.script| && (|r.s.script| == |s.script| ==> |r.s.windows| <= |s.windows|)
    decreases |s.script|, |s.windows|, 2, 0
  {
    hide *;
    if window !in s.windows then Result(s, true) else
      match DocsOf(s.docs, window)
      case Busy => Result(s, false)
      case Clean => Result(RemoveRun(s, window), true)
      case Unsaved =>
        var d := DialogRun(s);
        if d.s.exited || d.yes then Result(d.s, false)
        else if window in d.s.windows then Result(RemoveRun(d.s, window), true)
        else Result(d.s, true)
  }

  ghost function RemoveRun(s: State, window: Window): (t: State)
    ensures |t.script| <= |s.script| && (|t.script| == |s.script| ==> |t.windows| <= |s.windows|)
    decreases |s.script|, |s.windows|, 1, 0
  {
    hide *;
    if window !in s.windows then s else AfterClose(WillClose(s).(windows := Without(s.windows, window)))
  }

  ghost function DialogRun(s: State): (r: Result)
    ensures |r.s.script| <= |s.script| && (|r.s.script| == |s.script| ==> |r.s.windows| <= |s.windows|)
    decreases |s.script|, |s.windows|, 1, 0
  {
    hide *;
    var t := Waiting(s);
    if s.script == [] then Result(t, true) else
      var a := StepRun(t);
      if a.s.exited then Result(a.s, true)
      else if a.answer.Some? then Result(a.s, a.answer.value)
      else DialogRun(a.s)
  }

  ghost function Waiting(s: State): (r: State)
    ensures r.script == s.script && r.windows == s.windows
    ensures r.quitting == s.quitting && r.inSignal == s.inSignal && r.exited == s.exited
  {
    if s.due && s.cookie == 0 then s.(exposed := true) else s
  }

  ghost function StepRun(s: State): (r: Stepped)
    ensures s.script != [] ==> |r.s.script| < |s.script|
    ensures |r.s.script| <= |s.script| && (|r.s.script| == |s.script| ==> |r.s.windows| <= |s.windows|)
    decreases |s.script|, |s.windows|, 0, 0
  {
    hide *;
    if s.script == [] then Stepped(s, None) else
      var t := Taken(s);
      match s.script[0]
      case Quit => Stepped(QuitRun(t).s, None)
      case QueryEnd => Stepped(QueryRun(t), None)
      case Close(window) => Stepped(CloseRun(t, window).s, None)
      case Open => Stepped(WithWindow(t), None)
      case Change(window, docs) => Stepped(Changed(t, window, docs), None)
      case Signal => Stepped(if t.inSignal then t else SignalRun(t), None)
      case Answer(cancel) => Stepped(t, Some(cancel))
  }

  /** The next event is used up. */
  ghost function Taken(s: State): (r: State)
    requires s.script != []
    ensures |r.script| < |s.script| && r.windows == s.windows
    ensures r.quitting == s.quitting && r.inSignal == s.inSignal && r.exited == s.exited
  {
    s.(script := s.script[1..])
  }

  ghost function WithWindow(s: State): (r: State)
    ensures r.script == s.script
    ensures r.exited == s.exited && r.inSignal == s.inSignal
  {
    s.(windows := s.windows + [s.nextWindow], nextWindow := s.nextWindow + 1, docs := s.docs[s.nextWindow := Clean])
  }

  ghost function Changed(s: State, window: Window, docs: Docs): (r: State)
    ensures r.script == s.script && r.windows == s.windows
    ensures r.exited == s.exited && r.inSignal == s.inSignal
  {
    s.(docs := s.docs[window := docs])
  }

  ghost function QueryRun(s: State): (t: State)
    ensures |t.script| <= |s.script| && (|t.script| == |s.script| ==> |t.windows| <= |s.windows|)
    decreases |s.script|, |s.windows|, 6, 0
  {
    hide *;
    var t := QuitRun(Asked(s)).s;
    if t.exited then t else Told(Released(t), s)
  }

  /** The session manager has its answer; a query that came while the program was quitting is not over. */
  ghost function Told(t: State, s: State): (r: State)
    ensures r.script == t.script && r.windows == t.windows
    ensures r.again == t.again && r.exposed == t.exposed && r.bodyAsks == t.bodyAsks
    ensures r.exited == t.exited && r.inSignal == t.inSignal
  {
    t.(queries := t.queries + 1, due := s.quitting)
  }

  ghost function Asked(s: State): (r: State)
    ensures r.script == s.script && r.windows == s.windows
    ensures r.again == (s.again || s.quitting) && r.exited == s.exited && r.inSignal == s.inSignal
  {
    if s.cookie != 0 then Noted(s) else Inhibited(Noted(s))
  }

  ghost function Noted(s: State): (r: State)
    ensures r.script == s.script && r.windows == s.windows
    ensures r.again == (s.again || s.quitting) && r.exited == s.exited && r.inSignal == s.inSignal
  {
    s.(due := true, again := s.again || s.quitting)
  }

  ghost function Inhibited(s: State): (r: State)
    ensures r.script == s.script && r.windows == s.windows
    ensures r.again == s.again && r.exited == s.exited && r.inSignal == s.inSignal
  {
    s.(cookies := s.cookies + 1, cookie := s.cookies + 1, held := s.held + {s.cookies + 1})
  }

  ghost function SignalRun(s: State): (t: State)
    ensures |t.script| <= |s.script| && (|t.script| == |s.script| ==> |t.windows| <= |s.windows|)
    decreases |s.script|, |s.windows|, 6, 0
  {
    hide *;
    BodyRun(SessionTaken(s).(inSignal := true)).(exited := true)
  }

  /** The main loop. */
  ghost function MainRun(s: State): State
    decreases |s.script|
  {
    if s.exited || !s.running || s.script == [] then s else MainRun(StepRun(s).s)
  }

  // ----- what one step keeps

  lemma KeptTrans(s: State, t: State, u: State)
    requires Kept(s, t) && !t.exited && Kept(t, u)
    ensures Kept(s, u)
  {
    hide Opened, Holds, Only;
    if !u.exited {
      OnlyTrans(u.windows, t.windows, s.windows, t.nextWindow, s.nextWindow);
    }
  }

  lemma KeptValid(s: State, t: State)
    requires Valid(s) && Kept(s, t) && !t.exited
    ensures Valid(t)
  {
    hide Opened, Holds, Only;
  }

  lemma KeptSelf(s: State)
    requires Base(s) && !s.exited
    ensures Kept(s, s)
  {
    hide Opened, Holds, Only;
    OnlySelf(s.windows, s.nextWindow);
  }

  lemma NotExited(s: State)
    requires Valid(s)
    ensures !s.exited
  {
  }

  lemma TakenKept(s: State)
    requires Valid(s) && s.script != [] && Exact(s) && ExactNext(s)
    ensures var t := Taken(s); Kept(s, t) && Valid(t) && Exact(t) && ExactNext(t)
  {
    hide Opened, Holds, Only;
    OnlySelf(s.windows, s.nextWindow);
  }

  lemma WithWindowKept(s: State)
    requires Valid(s) && s.script != [] && ExactNext(s)
    ensures var t := WithWindow(Taken(s)); Kept(s, t) && Valid(t) && ExactNext(t)
  {
    hide Opened, Holds, Only;
    OneMore(s.windows, s.nextWindow);
  }

  lemma ChangedKept(s: State, window: Window, docs: Docs)
    requires Valid(s) && s.script != [] && ExactNext(s)
    ensures var t := Changed(Taken(s), window, docs); Kept(s, t) && Valid(t) && ExactNext(t)
  {
    hide Opened, Holds, Only;
    OnlySelf(s.windows, s.nextWindow);
  }

  lemma WaitingKept(s: State)
    requires Valid(s) && ExactNext(s)
    ensures var t := Waiting(s); Kept(s, t) && Valid(t) && Exact(t) && ExactNext(t)
  {
    hide Opened, Holds, Only;
    OnlySelf(s.windows, s.nextWindow);
  }

  // ----- what the steps keep, with all that happens inside them

  /** When the last window is closed the program quits, with the session that is known. */
  lemma AfterCloseKept(s: State)
    requires Valid(s) && (s.running && !s.inTryQuit ==> Exact(s))
    ensures var t := AfterClose(s);
      && Kept(s, t) && (Exact(s) ==> Exact(t))
      && (!s.running || s.inTryQuit || s.windows != [] ==> t == s)
      && (s.running && !s.inTryQuit && s.windows == [] && !t.exited ==>
        !t.running && (s.sessionFile ==> t.written == s.session))
    decreases |s.script|, |s.windows|, 6, 0
  {
    hide Opened, Holds, Only, QuitRun;
    KeptSelf(s);
    if s.running && !s.inTryQuit && s.windows == [] {
      QuitKept(s.(inAfterClose := true));
    }
  }

  /** Quitting succeeds or is cancelled. If it succeeds, all windows that were open are closed, no inhibitor is left,
      and the session written is that of the windows open at the beginning, or the one known when the last was
      closed. */
  lemma QuitKept(s: State)
    requires Base(s) && !s.exited && (s.quitting ==> s.inTryQuit || !s.running)
    requires s.running && !s.inTryQuit ==>
      Exact(s) && (s.due ==> s.cookie != 0) && (s.inAfterClose ==> s.windows == [])
    ensures var r := QuitRun(s); var t := r.s;
      && Kept(s, t) && (s.inTryQuit || !s.running ==> r == Result(s, true))
      && (s.running && !s.inTryQuit ==> Exact(t))
      && (s.running && !s.inTryQuit && !t.exited ==>
        && (r.yes <==> !t.running) && (s.inAfterClose ==> r.yes)
        && (r.yes ==> t.cookie == 0 && forall w :: w in s.windows ==> w !in t.windows)
        && (r.yes && s.sessionFile ==> t.written == if s.inAfterClose then s.session else Some(s.windows)))
    decreases |s.script|, |s.windows|, 5, 0
  {
    hide Opened, Holds, Only, TryQuitRun, BodyRun, Kept, Steady, Stopped;
    KeptSelf(s);
    if s.running && !s.inTryQuit {
      TryQuitKept(s);
      var r := TryQuitRun(s);
      if r.s.exited {
        KeptExited(s.(quitting := true), s, r.s);
      } else if !r.yes {
        SettledKept(s, r.s);
      } else {
        TriedReady(s, r.s);
        BodyKept(r.s);
        BodySettled(s, r.s, BodyRun(r.s));
      }
    }
  }

  lemma KeptExited(s: State, s': State, t: State)
    requires Kept(s, t) && t.exited && s.running && s'.running && s'.sessionFile == s.sessionFile
    requires s'.queries == s.queries && s'.nextWindow == s.nextWindow && s'.script == s.script
    requires s'.inSignal == s.inSignal
    requires s'.again == s.again && s'.bodyAsks == s.bodyAsks && s'.exposed == s.exposed
    ensures Kept(s', t)
  {
    hide Opened, Holds, Only;
  }

  lemma SettledKept(s: State, t: State)
    requires Kept(s.(quitting := true), t) && !t.exited && s.running && !s.inTryQuit && !s.quitting
    ensures Kept(s, Settled(t, s)) && (Exact(t) ==> Exact(Settled(t, s))) && Settled(t, s).running == t.running
  {
    hide Opened, Holds, Only;
  }

  lemma TriedReady(s: State, t: State)
    requires Kept(s.(quitting := true), t) && !t.exited && t.running && !s.inTryQuit
    ensures Base(t) && !t.inTryQuit && t.sessionFile == s.sessionFile
    ensures s.inAfterClose ==> t.inAfterClose
  {
    hide Opened, Holds, Only;
  }

  lemma BodySettled(s: State, t: State, u: State)
    requires Base(s) && Kept(s.(quitting := true), t) && !t.exited && s.running && t.running
    requires !s.inTryQuit && !s.quitting
    requires Kept(Stopped(t).(written := u.written), u) && Exact(u)
    requires forall w :: w in s.windows ==> w !in t.windows
    ensures Kept(s, if u.exited then u else Settled(u, s)) && Exact(Settled(u, s))
    ensures !u.running && (!u.exited ==> u.cookie == 0 && forall w :: w in s.windows ==> w !in u.windows)
  {
    hide Opened, Holds, Only, Stopped;
    StoppedIs(t);
    Known(s.windows, s.nextWindow);
    if !u.exited {
      OnlyTrans(u.windows, t.windows, s.windows, t.nextWindow, s.nextWindow);
      GoneStays(u.windows, t.windows, t.nextWindow);
    }
  }

  /** The attempt takes the session down once, before any window is closed, and does not run the quit body. */
  lemma TryQuitKept(s: State)
    requires Base(s) && !s.exited && s.running && !s.inTryQuit && !s.quitting && (s.inAfterClose ==> s.windows == [])
    requires Exact(s) && (s.due ==> s.cookie != 0)
    ensures var r := TryQuitRun(s); var t := r.s;
      && Kept(s.(quitting := true), t) && Exact(t)
      && (!t.exited ==>
        && t.running && (r.yes ==> forall w :: w in s.windows ==> w !in t.windows)
        && (s.sessionFile ==> t.session == if s.inAfterClose then s.session else Some(s.windows)))
      && (s.inAfterClose ==> r == Result(s.(quitting := true), true))
    decreases |s.script|, |s.windows|, 4, 0
  {
    hide Opened, Holds, Only, CloseList, Trying, Kept, Steady, Base;
    var t := Trying(s);
    TryingReady(s);
    CloseListKept(t, s.windows);
    Tried(s, CloseList(t, s.windows));
  }

  lemma TryingReady(s: State)
    requires Base(s) && !s.exited && s.running && !s.inTryQuit && !s.quitting && (s.inAfterClose ==> s.windows == [])
    requires Exact(s) && (s.due ==> s.cookie != 0)
    ensures var t := Trying(s);
      && Base(t) && !t.exited && t.quitting && t.inTryQuit && (s.windows != [] ==> Valid(t))
      && Exact(t) && ExactNext(t) && t.windows == s.windows && t.nextWindow == s.nextWindow
      && (s.inAfterClose ==> t == s.(inTryQuit := true, quitting := true))
  {
    hide Opened, Holds;
  }

  lemma Tried(s: State, r: Result)
    requires Base(s) && !s.exited && s.running && !s.inTryQuit && !s.quitting && (s.inAfterClose ==> s.windows == [])
    requires Kept(Trying(s), r.s) && Exact(r.s) && (s.inAfterClose ==> r == Result(Trying(s), true))
    requires !r.s.exited && r.yes ==>
      forall i :: 0 <= i < |s.windows| && s.windows[i] < s.nextWindow ==> s.windows[i] !in r.s.windows
    ensures var t := if r.s.exited then r.s else GivenUp(r.s);
      && Kept(s.(quitting := true), t) && Exact(t)
      && (!t.exited ==>
        && t.running && (r.yes ==> forall w :: w in s.windows ==> w !in t.windows)
        && (s.sessionFile ==> t.session == if s.inAfterClose then s.session else Some(s.windows)))
      && (s.inAfterClose ==> t == s.(quitting := true))
  {
    hide Opened, Holds, Only;
    Known(s.windows, s.nextWindow);
  }

  /** The quit body writes the session known at its beginning, unless the process ends in one of its dialogs. */
  lemma BodyKept(s: State)
    requires Base(s) && !s.exited && s.running && (s.inTryQuit ==> s.savedInTryQuit && s.inSignal) && Exact(s)
    ensures var t := BodyRun(s);
      && Kept(Stopped(s).(written := t.written), t) && Exact(t)
      && t.written == if t.exited || !s.sessionFile then s.written else s.session
    decreases |s.script|, |s.windows|, 4, 0
  {
    hide Opened, Holds, Only, CloseList, Stopped, Kept;
    var t := Stopped(s);
    StoppedReady(s);
    CloseListKept(t, s.windows);
    BodyWritten(t, CloseList(t, s.windows).s);
  }

  lemma StoppedIs(s: State)
    ensures var t := Stopped(s);
      && !t.running && t.quits == s.quits + 1 && t.cookie == 0 && t.quitting && t.exited == s.exited
      && t.inTryQuit == s.inTryQuit && t.savedInTryQuit == s.savedInTryQuit && t.inAfterClose == s.inAfterClose
      && t.inSignal == s.inSignal && t.due == s.due && t.queries == s.queries && t.nextWindow == s.nextWindow
      && t.script == s.script && t.windows == s.windows && t.sessionFile == s.sessionFile
      && t.session == s.session && t.written == s.written
      && t.again == s.again && t.exposed == s.exposed && (s.bodyAsks ==> t.bodyAsks)
  {
    hide Asks;
  }

  lemma StoppedReady(s: State)
    requires Base(s) && !s.exited && s.running && (s.inTryQuit ==> s.savedInTryQuit && s.inSignal) && Exact(s)
    ensures var t := Stopped(s);
      && Valid(t) && t.quitting && !t.running && t.written == s.written && t.session == s.session
      && t.sessionFile == s.sessionFile && t.docs == s.docs
      && if Asks(t.windows, t.docs, t.windows) then ExactNext(t) else Exact(t)
  {
    hide Opened, Holds, Only, Asks;
    HoldsNone(s.held, s.cookie);
  }

  lemma BodyWritten(s: State, t: State)
    requires Kept(s, t) && !s.running && Exact(t)
    ensures t.written == s.written && t.sessionFile == s.sessionFile && (!t.exited ==> t.session == s.session)
    ensures forall f :: Kept(s.(written := f), t.(written := f))
  {
    hide Opened, Holds, Only;
  }

  lemma AsksFirst(windows: seq<Window>, docs: map<Window, Docs>, all: seq<Window>)
    ensures all == [] ==> !Asks(windows, docs, all)
    ensures all != [] && AsksAbout(windows, docs, all[0]) ==> Asks(windows, docs, all)
    ensures all != [] && all[0] in windows && DocsOf(docs, all[0]) == Busy ==> !Asks(windows, docs, all)
  {
  }

  lemma CloseListIs(s: State, all: seq<Window>)
    ensures all == [] ==> CloseList(s, all) == Result(s, true)
    ensures all != [] ==> var r := CloseRun(s, all[0]);
      CloseList(s, all) == if r.s.exited || !r.yes then r else CloseList(r.s, all[1..])
  {
    hide CloseRun;
  }

  /** If nothing forbids or cancels it, all windows of the list are closed. */
  lemma CloseListKept(s: State, all: seq<Window>)
    requires Base(s) && !s.exited && s.quitting && (s.inTryQuit || !s.running) && (all != [] ==> Valid(s))
    requires if Asks(s.windows, s.docs, all) then ExactNext(s) else Exact(s)
    ensures var r := CloseList(s, all); var t := r.s;
      && Kept(s, t) && Exact(t) && (all == [] ==> r == Result(s, true))
      && (!t.exited && r.yes ==> forall i :: 0 <= i < |all| && all[i] < s.nextWindow ==> all[i] !in t.windows)
    decreases |s.script|, |s.windows|, 3, |all|
  {
    hide Opened, Holds, Only, CloseRun, RemoveRun, Kept, Without, CloseList, Asks,
      Steady, Exact, ExactNext, AsksAbout, DocsOf;
    KeptSelf(s);
    CloseListIs(s, all);
    AsksFirst(s.windows, s.docs, all);
    if all != [] {
      CloseKept(s, all[0]);
      var r := CloseRun(s, all[0]);
      if !r.s.exited && r.yes {
        KeptValid(s, r.s);
        CloseNext(s, all, r);
        CloseListKept(r.s, all[1..]);
        KeptTrans(s, r.s, CloseList(r.s, all[1..]).s);
        StillGone(s, r.s);
        StillGone(r.s, CloseList(r.s, all[1..]).s);
        assert forall i :: 0 <= i < |all| - 1 ==> all[1..][i] == all[i + 1];
      }
    }
  }

  /** Windows that are gone stay gone. */
  lemma StillGone(s: State, t: State)
    requires Kept(s, t)
    ensures s.nextWindow <= t.nextWindow
    ensures !t.exited ==> forall w :: w < s.nextWindow && w !in s.windows ==> w !in t.windows
  {
    hide Opened, Holds, Only;
    if !t.exited {
      GoneStays(t.windows, s.windows, s.nextWindow);
    }
  }

  /** When a window is closed, the rest of the list asks or not as before. */
  lemma CloseNext(s: State, all: seq<Window>, r: Result)
    requires Valid(s) && s.quitting && all != [] && !r.s.exited && r.yes && Kept(s, r.s)
    requires AsksAbout(s.windows, s.docs, all[0]) ==> Exact(r.s)
    requires if Asks(s.windows, s.docs, all) then ExactNext(s) else Exact(s)
    requires ExactNext(s) || AsksAbout(s.windows, s.docs, all[0]) ==> ExactNext(r.s)
    requires !AsksAbout(s.windows, s.docs, all[0]) ==>
      r == if all[0] !in s.windows then Result(s, true)
        else if DocsOf(s.docs, all[0]) == Busy then Result(s, false)
        else Result(s.(windows := Without(s.windows, all[0])), true)
    ensures r.s.quitting && (r.s.inTryQuit || !r.s.running)
    ensures if Asks(r.s.windows, r.s.docs, all[1..]) then ExactNext(r.s) else Exact(r.s)
  {
    hide Opened, Holds, Only, Without, Kept, Steady;
    StillQuitting(s, r.s);
    if all[0] in s.windows {
      WithoutIs(s.windows, s.nextWindow, all[0]);
    }
    if !AsksAbout(s.windows, s.docs, all[0]) {
      AsksSame(s.windows, r.s.windows, s.docs, all[1..]);
    }
  }

  lemma StillQuitting(s: State, t: State)
    requires Valid(s) && s.quitting && Kept(s, t) && !t.exited
    ensures t.quitting && (t.inTryQuit || !t.running)
  {
    hide Opened, Holds, Only;
  }

  /** Without a dialog, closing a window does nothing but that, or nothing when a document is busy. */
  lemma CloseKept(s: State, window: Window)
    requires Valid(s) && (AsksAbout(s.windows, s.docs, window) ==> ExactNext(s))
    requires s.running && !s.inTryQuit ==> AsksAbout(s.windows, s.docs, window) || Exact(s)
    ensures var r := CloseRun(s, window); var t := r.s;
      && Kept(s, t) && (AsksAbout(s.windows, s.docs, window) || Exact(s) ==> Exact(t))
      && (!t.exited && (ExactNext(s) || AsksAbout(s.windows, s.docs, window)) ==> ExactNext(t))
      && (!t.exited && r.yes && window < s.nextWindow ==> window !in t.windows)
      && ((s.inTryQuit || !s.running) && !AsksAbout(s.windows, s.docs, window) ==>
        r == if window !in s.windows then Result(s, true)
          else if DocsOf(s.docs, window) == Busy then Result(s, false)
          else Result(s.(windows := Without(s.windows, window)), true))
    decreases |s.script|, |s.windows|, 2, 0
  {
    hide Opened, Holds, Only, RemoveRun, DialogRun;
    KeptSelf(s);
    if AsksAbout(s.windows, s.docs, window) {
      DialogKept(s);
      var d := DialogRun(s);
      if !d.s.exited {
        KeptValid(s, d.s);
        if !d.yes && window in d.s.windows {
          RemoveKept(d.s, window);
          KeptTrans(s, d.s, RemoveRun(d.s, window));
        }
      }
    } else if window in s.windows && DocsOf(s.docs, window) == Clean {
      RemoveKept(s, window);
    }
  }

  /** Exactly that window is closed; closing the last one quits, and the session written has that window. */
  lemma RemoveKept(s: State, window: Window)
    requires Valid(s) && window in s.windows && (s.running && !s.inTryQuit ==> Exact(s))
    ensures var t := RemoveRun(s, window);
      && Kept(s, t) && (Exact(s) ==> Exact(t)) && (!t.exited ==> window !in t.windows)
      && (ExactNext(s) && !t.exited ==> ExactNext(t))
      && (s.inTryQuit || !s.running ==> t == s.(windows := Without(s.windows, window)))
      && (s.running && !s.inTryQuit && |s.windows| == 1 && !t.exited ==>
        !t.running && (s.sessionFile ==> t.written == Some([window])))
    decreases |s.script|, |s.windows|, 1, 0
  {
    hide Opened, Holds, Only, AfterClose, Without, Kept, WillClose;
    var t := WillClose(s).(windows := Without(s.windows, window));
    ClosedReady(s, window);
    KeptValid(s, t);
    AfterCloseKept(t);
    KeptTrans(s, t, AfterClose(t));
    StillGone(t, AfterClose(t));
    if !AfterClose(t).exited {
      StillDue(t, AfterClose(t));
    }
  }

  lemma ClosedReady(s: State, window: Window)
    requires Valid(s) && window in s.windows
    ensures var t := WillClose(s).(windows := Without(s.windows, window));
      && Kept(s, t) && !t.exited && (Exact(s) ==> Exact(t)) && (ExactNext(s) ==> ExactNext(t))
      && window !in t.windows && window < t.nextWindow && |t.windows| == |s.windows| - 1
      && (s.inTryQuit || !s.running ==> t == s.(windows := Without(s.windows, window)))
      && t.running == s.running && t.inTryQuit == s.inTryQuit && t.sessionFile == s.sessionFile
      && (s.running && !s.inTryQuit && |s.windows| == 1 && s.sessionFile ==> t.session == Some([window]))
  {
    hide Opened, Holds, Only, Without;
    WithoutIs(s.windows, s.nextWindow, window);
    Known(s.windows, s.nextWindow);
    assert |s.windows| == 1 ==> s.windows == [window];
  }

  /** Outside quitting nobody waits for an answer, so nothing is exposed next. */
  lemma StillDue(s: State, t: State)
    requires Valid(s) && Kept(s, t) && !t.exited
    ensures !s.quitting && Exact(t) ==> ExactNext(t)
  {
    hide Opened, Holds, Only;
  }

  lemma DialogIs(s: State)
    ensures var a := StepRun(Waiting(s));
      DialogRun(s) ==
        if s.script == [] then Result(Waiting(s), true)
        else if a.s.exited then Result(a.s, true)
        else if a.answer.Some? then Result(a.s, a.answer.value)
        else DialogRun(a.s)
  {
    hide StepRun, Waiting;
  }

  lemma DialogKept(s: State)
    requires Valid(s) && ExactNext(s)
    ensures var t := DialogRun(s).s; Kept(s, t) && Exact(t) && (!t.exited ==> ExactNext(t))
    decreases |s.script|, |s.windows|, 1, 0
  {
    hide *;
    DialogIs(s);
    var t := Waiting(s);
    WaitingKept(s);
    if s.script != [] {
      StepKept(t);
      var a := StepRun(t);
      assert !t.exited by {
        NotExited(t);
      }
      KeptTrans(s, t, a.s);
      if !a.s.exited && a.answer.None? {
        DialogKept(a.s);
        KeptTrans(s, a.s, DialogRun(a.s).s);
      }
    }
  }

  lemma StepIs(s: State)
    requires s.script != []
    ensures var t, r := Taken(s), StepRun(s);
      match s.script[0]
      case Quit => r == Stepped(QuitRun(t).s, None)
      case QueryEnd => r == Stepped(QueryRun(t), None)
      case Close(window) => r == Stepped(CloseRun(t, window).s, None)
      case Open => r == Stepped(WithWindow(t), None)
      case Change(window, docs) => r == Stepped(Changed(t, window, docs), None)
      case Signal => r == Stepped(if t.inSignal then t else SignalRun(t), None)
      case Answer(cancel) => r == Stepped(t, Some(cancel))
  {
    hide QuitRun, QueryRun, CloseRun, SignalRun, Taken, WithWindow, Changed;
  }

  lemma StepKept(s: State)
    requires Valid(s) && s.script != [] && Exact(s) && ExactNext(s)
    ensures var t := StepRun(s).s; Kept(s, t) && if t.exited then Exact(t) else Valid(t) && ExactNext(t)
    ensures StepRun(s).answer.Some? ==> Exact(StepRun(s).s)
    decreases |s.script|, |s.windows|, 0, 0
  {
    hide *;
    var t := Taken(s);
    TakenKept(s);
    StepIs(s);
    NotExited(t);
    match s.script[0]
    case Quit =>
      ReadyToQuit(t);
      QuitKept(t);
      AfterStep(s, t, QuitRun(t).s);
    case QueryEnd =>
      QueryKept(t);
      KeptTrans(s, t, QueryRun(t));
    case Close(window) =>
      CloseKept(t, window);
      AfterStep(s, t, CloseRun(t, window).s);
    case Open =>
      WithWindowKept(s);
      NotExited(WithWindow(t));
    case Change(window, docs) =>
      ChangedKept(s, window, docs);
      NotExited(Changed(t, window, docs));
    case Signal =>
      if !t.inSignal {
        SignalKept(t);
        KeptTrans(s, t, SignalRun(t));
      } else {
        NotExited(t);
      }
    case Answer(cancel) =>
  }

  lemma ReadyToQuit(s: State)
    requires Valid(s)
    ensures Base(s) && !s.exited && (s.quitting ==> s.inTryQuit || !s.running)
    ensures s.running && !s.inTryQuit ==> (s.due ==> s.cookie != 0) && !s.inAfterClose
  {
    hide Opened, Holds;
  }

  lemma AfterStep(s: State, t: State, u: State)
    requires Kept(s, t) && !t.exited && Kept(t, u) && Valid(t) && ExactNext(t) && Exact(t)
    requires u == t || (t.running && !t.inTryQuit && Exact(u)) || (Exact(u) && (!u.exited ==> ExactNext(u)))
    ensures Kept(s, u) && if u.exited then Exact(u) else Valid(u) && ExactNext(u)
  {
    hide Opened, Holds, Only;
    KeptTrans(s, t, u);
    if !u.exited {
      KeptValid(t, u);
    }
  }

  /** A question of the session manager is answered, and no inhibitor is held then. */
  lemma QueryKept(s: State)
    requires Valid(s) && Exact(s)
    ensures var t := QueryRun(s);
      Kept(s, t) && if t.exited then Exact(t) else Valid(t) && ExactNext(t) && t.cookie == 0 && s.queries < t.queries
    decreases |s.script|, |s.windows|, 6, 0
  {
    hide Opened, Holds, Only, QuitRun, Kept, Asked;
    var t := Asked(s);
    AskedReady(s);
    QuitKept(t);
    Answered(s, QuitRun(t).s);
    if !QueryRun(s).exited {
      KeptValid(s, QueryRun(s));
    }
  }

  lemma AskedReady(s: State)
    requires Valid(s) && Exact(s)
    ensures var t := Asked(s);
      && Base(t) && !t.exited && t.cookie != 0 && t.due && (s.running && !s.inTryQuit ==> Exact(t))
      && t.again == (s.again || s.quitting) && t.exposed == s.exposed && t.bodyAsks == s.bodyAsks
      && t.running == s.running && t.inTryQuit == s.inTryQuit && t.savedInTryQuit == s.savedInTryQuit
      && t.inAfterClose == s.inAfterClose && t.inSignal == s.inSignal && t.quitting == s.quitting
      && t.sessionFile == s.sessionFile && t.session == s.session && t.written == s.written
      && t.queries == s.queries && t.nextWindow == s.nextWindow && t.windows == s.windows && t.script == s.script
  {
    hide Opened, Holds, Only;
    if s.cookie == 0 {
      HoldsOne(s.held, s.cookies + 1);
    }
  }

  lemma Answered(s: State, t: State)
    requires Valid(s) && Exact(s) && Kept(Asked(s), t)
    requires if s.running && !s.inTryQuit then Exact(t) else t == Asked(s)
    ensures t.exited ==> Kept(s, t) && Exact(t)
    ensures !t.exited ==> var u := Told(Released(t), s);
      Kept(s, u) && ExactNext(u) && u.cookie == 0 && s.queries < u.queries
  {
    hide Opened, Holds, Only, Asked;
    AskedReady(s);
    HoldsNone(t.held, t.cookie);
  }

  /** A signal ends the process. The session of the windows open then is written if the program is running; during
      the dialogs of the quit body nothing is. */
  lemma SignalKept(s: State)
    requires Valid(s) && Exact(s) && !s.inSignal
    ensures var t := SignalRun(s);
      && Kept(s, t) && Exact(t) && t.exited && !t.running && t.quits == 1
      && t.written == if s.running && s.sessionFile then Some(s.windows) else s.written
    decreases |s.script|, |s.windows|, 6, 0
  {
    hide Opened, Holds, Only, BodyRun, Kept, Stopped;
    var t := SessionTaken(s).(inSignal := true);
    if s.running {
      BodyKept(t);
      Ended(s, t, BodyRun(t));
    } else {
      BodyNot(t);
      EndedAtOnce(s, t);
    }
  }

  lemma BodyNot(s: State)
    ensures !s.running ==> BodyRun(s) == s
  {
    hide CloseList;
  }

  lemma Ended(s: State, t: State, u: State)
    requires Valid(s) && s.running && !s.inSignal && t == SessionTaken(s).(inSignal := true)
    requires Kept(Stopped(t).(written := u.written), u)
    ensures !u.exited && !u.running && u.quits == 1 && Kept(s, u.(exited := true))
  {
    hide Opened, Holds, Only, Stopped;
    StoppedIs(t);
  }

  lemma EndedAtOnce(s: State, t: State)
    requires Valid(s) && !s.running && !s.inSignal && t == SessionTaken(s).(inSignal := true)
    ensures Kept(s, t.(exited := true)) && t.quits == 1
  {
    hide Opened, Holds, Only;
  }

  // ----- whole runs

  /** The program as it starts. */
  ghost function Start(script: seq<Event>, sessionFile: bool): State {
    State(true, false, false, false, 0, sessionFile, None, [], map[], 0, script, {}, 0, None, false, false, 0, 0,
      false, false, false, false, false)
  }

  /** Between events: nobody is waiting for anything. */
  ghost predicate Idle(s: State) {
    Valid(s) && Exact(s) && s.cookie == 0 && !s.inTryQuit && !s.inAfterClose && !s.inSignal && !s.quitting
  }

  lemma StartIdle(script: seq<Event>, sessionFile: bool)
    ensures Idle(Start(script, sessionFile))
  {
  }

  lemma IdleNext(s: State)
    requires Idle(s) && !s.exited && s.script != []
    ensures var t := StepRun(s).s;
      Base(t) && Exact(t) && (s.bodyAsks ==> t.bodyAsks) && (s.again ==> t.again) && (!t.exited ==> Idle(t))
      && (!s.running ==> t.written == s.written)
  {
    hide Opened, Holds, Only, StepRun;
    StepKept(s);
  }

  /** Over a whole run, with anything happening in dialogs: the quit body runs once or not at all, flags and
      inhibitors are as at the beginning unless a signal ends the process, and a dialog has waited for answers
      without an inhibitor, while the session manager waited too, exactly if a query came while the program was
      quitting already, or the quit body began in answer to a query with a window it would ask about. */
  lemma {:induction false} WholeRun(s: State)
    requires Idle(s)
    ensures var t := MainRun(s);
      && t.quits == (if t.running then 0 else 1) && (t.exposed <==> t.again || t.bodyAsks)
      && (!t.exited ==> Idle(t) && t.held == {} && (t.running ==> t.script == []))
      && (s.bodyAsks ==> t.bodyAsks) && (s.again ==> t.again)
    decreases |s.script|
  {
    hide Opened, Only, StepRun;
    if s.running && s.script != [] {
      IdleNext(s);
      var t := StepRun(s).s;
      if !t.exited {
        WholeRun(t);
      }
    }
  }

  // ----- what the single steps are, unfolded

  lemma QuitIs(s: State)
    ensures var r := TryQuitRun(s);
      QuitRun(s) ==
        if s.inTryQuit || !s.running then Result(s, true)
        else if r.s.exited then r
        else if !r.yes then Result(Settled(r.s, s), false)
        else if BodyRun(r.s).exited then Result(BodyRun(r.s), true)
        else Result(Settled(BodyRun(r.s), s), true)
  {
    hide TryQuitRun, BodyRun, Settled;
  }

  lemma TryQuitIs(s: State)
    ensures var r := CloseList(Trying(s), s.windows);
      TryQuitRun(s) == if r.s.exited then r else Result(GivenUp(r.s), r.yes)
  {
    hide CloseList, Trying;
  }

  lemma BodyIs(s: State)
    ensures var r := CloseList(Stopped(s), s.windows);
      BodyRun(s) ==
        if !s.running then s
        else if !r.s.exited && r.s.sessionFile then r.s.(written := r.s.session) else r.s
  {
    hide CloseList, Stopped;
  }

  lemma AskingIs(s: State, window: Window)
    requires AsksAbout(s.windows, s.docs, window)
    ensures var d := DialogRun(s);
      CloseRun(s, window) ==
        if d.s.exited || d.yes then Result(d.s, false)
        else if window in d.s.windows then Result(RemoveRun(d.s, window), true)
        else Result(d.s, true)
  {
    hide DialogRun, RemoveRun;
  }

  lemma QueryIs(s: State)
    ensures var t := QuitRun(Asked(s)).s;
      QueryRun(s) == if t.exited then t else Told(Released(t), s)
  {
    hide QuitRun, Asked, Released;
  }

  // ----- runs in which the session manager's inhibitor is missed

  /** The first question is still open when the session manager asks again. */
  lemma AskedAgain(s: State)
    requires Valid(s) && ExactNext(s) && s.quitting && s.script != [] && s.script[0] == QueryEnd
    ensures DialogRun(s).s.again && DialogRun(s).s.exposed
  {
    hide *;
    var t := Waiting(s);
    DialogIs(s);
    WaitingKept(s);
    StepIs(t);
    TakenKept(t);
    AnsweredIs(Taken(t));
    DialogKept(s);
    StepKept(t);
    var a := StepRun(t);
    if !a.s.exited {
      DialogKept(a.s);
      StillSet(a.s, DialogRun(a.s).s);
    }
    ExactIs(DialogRun(s).s);
  }

  lemma AnsweredIs(s: State)
    requires Valid(s) && Exact(s) && s.quitting
    ensures QueryRun(s).again
  {
    hide QuitRun, QueryRun, Asked, Released, Kept, Opened, Holds;
    var t := Asked(s);
    QueryIs(s);
    AskedReady(s);
    QuitKept(t);
    StillSet(t, QuitRun(t).s);
  }

  lemma StillSet(s: State, t: State)
    requires Kept(s, t)
    ensures (s.again ==> t.again) && (s.bodyAsks ==> t.bodyAsks) && (s.exposed ==> t.exposed)
  {
  }

  lemma ExactBack(s: State, t: State)
    requires Valid(s) && !s.quitting && Kept(s, t) && if t.exited then Exact(t) else ExactNext(t)
    ensures Exact(t)
  {
    hide Opened, Holds, Only;
  }

  lemma ExactIs(s: State)
    requires Exact(s)
    ensures s.exposed <==> s.again || s.bodyAsks
  {
  }

  /** A program with one window, and unsaved documents in it. */
  ghost predicate OneUnsaved(s: State) {
    Idle(s) && s.running && |s.windows| == 1 && DocsOf(s.docs, s.windows[0]) == Unsaved
  }

  /** What closing that window comes to decides about the attempt to quit. */
  lemma TriesWindow(s: State)
    requires OneUnsaved(s)
    ensures var t, w := Trying(Asked(s)), s.windows[0];
      && Valid(t) && Exact(t) && ExactNext(t) && t.quitting && t.inTryQuit && t.due && t.cookie != 0
      && t.windows == [w] && t.docs == s.docs && t.script == s.script && t.nextWindow == s.nextWindow
  {
  }

  lemma TryOfOne(s: State)
    requires |s.windows| == 1
    ensures var r := CloseRun(Trying(s), s.windows[0]);
      TryQuitRun(s) == if r.s.exited then r
        else Result(GivenUp(r.s), r.yes)
  {
    hide *;
    var t := Trying(s);
    assert s.windows[1..] == [];
    TryQuitIs(s);
    CloseListIs(t, s.windows);
    CloseListIs(CloseRun(t, s.windows[0]).s, []);
  }

  lemma QuitGrows(s: State)
    requires Base(s) && !s.exited && s.running && !s.inTryQuit && !s.quitting && Exact(s) && s.cookie != 0
    requires s.inAfterClose ==> s.windows == []
    ensures var r, t := TryQuitRun(s), QuitRun(s).s;
      && (r.s.again ==> t.again)
      && (!r.s.exited && r.yes && r.s.due && Asks(r.s.windows, r.s.docs, r.s.windows) ==> t.bodyAsks)
  {
    hide TryQuitRun, BodyRun, QuitRun, Kept, Base, Stopped, Asks;
    QuitIs(s);
    TryQuitKept(s);
    var r := TryQuitRun(s);
    if !r.s.exited && r.yes {
      TriedReady(s, r.s);
      BodyKept(r.s);
      var t := BodyRun(r.s);
      StillSet(Stopped(r.s).(written := t.written), t);
      StoppedIs(r.s);
      StoppedAsks(r.s);
    }
  }

  lemma StoppedAsks(s: State)
    ensures s.due && Asks(s.windows, s.docs, s.windows) ==> Stopped(s).bodyAsks
  {
  }

  /** What has happened when closing the window was tried has happened when the question is answered. */
  lemma QueryGrows(s: State)
    requires OneUnsaved(s)
    ensures var r, t := CloseRun(Trying(Asked(s)), s.windows[0]), QueryRun(s);
      && (r.s.again ==> t.again)
      && (!r.s.exited && r.yes && Asks(r.s.windows, r.s.docs, r.s.windows) ==> t.bodyAsks)
  {
    hide CloseRun, Trying, Asked, TryQuitRun, QuitRun, QueryRun, Asks, Kept, Opened, Holds, AsksAbout;
    var a, w := Asked(s), s.windows[0];
    var t := Trying(a);
    TriesWindow(s);
    AskedReady(s);
    TryOfOne(a);
    QuitGrows(a);
    QueryIs(s);
    assert AsksAbout(t.windows, t.docs, w) by {
      OneAsks(t, w);
    }
    CloseKept(t, w);
    StillWaits(t, CloseRun(t, w).s);
  }

  lemma OneAsks(s: State, window: Window)
    requires s.windows == [window] && DocsOf(s.docs, window) == Unsaved
    ensures AsksAbout(s.windows, s.docs, window)
  {
  }

  lemma StillWaits(s: State, t: State)
    requires Kept(s, t) && s.due
    ensures !t.exited ==> t.due
  {
  }

  /** The session manager asks again before the first question is answered. */
  lemma SecondQuestion(s: State)
    requires OneUnsaved(s) && s.script != [] && s.script[0] == QueryEnd
    ensures QueryRun(s).again && QueryRun(s).exposed
  {
    hide CloseRun, Trying, Asked, DialogRun, QueryRun, RemoveRun, Kept, Opened, Holds, AsksAbout;
    var t, w := Trying(Asked(s)), s.windows[0];
    TriesWindow(s);
    AskedAgain(t);
    DialogKept(t);
    OneAsks(t, w);
    AskingIs(t, w);
    var d := DialogRun(t);
    if !d.s.exited && !d.yes && w in d.s.windows {
      KeptValid(t, d.s);
      RemoveKept(d.s, w);
      StillSet(d.s, RemoveRun(d.s, w));
    }
    QueryGrows(s);
    QueryKept(s);
    ExactBack(s, QueryRun(s));
    ExactIs(QueryRun(s));
  }

  lemma OnWithDialog(s: State)
    requires s.script != [] && !s.exited && (s.due ==> s.cookie != 0)
    ensures match s.script[0]
      case Open => DialogRun(s) == DialogRun(WithWindow(Taken(s)))
      case Change(window, docs) => DialogRun(s) == DialogRun(Changed(Taken(s), window, docs))
      case Answer(cancel) => DialogRun(s) == Result(Taken(s), cancel)
      case _ => true
  {
    hide *;
    DialogIs(s);
    StepIs(s);
    WaitingSame(s);
    match s.script[0]
    case Open => StaysOn(s, 0, Clean);
    case Change(window, docs) => StaysOn(s, window, docs);
    case Answer(cancel) => StaysOn(s, 0, Clean);
    case _ =>
  }

  lemma WaitingSame(s: State)
    requires s.due ==> s.cookie != 0
    ensures Waiting(s) == s
  {
  }

  lemma StaysOn(s: State, window: Window, docs: Docs)
    requires s.script != []
    ensures var t := Taken(s);
      t.exited == s.exited && WithWindow(t).exited == s.exited && Changed(t, window, docs).exited == s.exited
  {
  }

  /** A dialog in which a window is opened and then the question is answered. */
  lemma WindowOpened(s: State, docs: Docs, cancel: bool)
    requires !s.exited && (s.due ==> s.cookie != 0) && |s.script| >= 3
    requires s.script[0] == Open && s.script[1] == Change(s.nextWindow, docs) && s.script[2] == Answer(cancel)
    ensures DialogRun(s) == Result(Opening(s, docs), cancel)
  {
    hide DialogRun;
    var s1 := WithWindow(Taken(s));
    OnWithDialog(s);
    var s2 := Changed(Taken(s1), s.nextWindow, docs);
    OnWithDialog(s1);
    OnWithDialog(s2);
    assert s.script[1..][1..][1..] == s.script[3..];
  }

  ghost function Opening(s: State, docs: Docs): State
    requires |s.script| >= 3
  {
    s.(windows := s.windows + [s.nextWindow], nextWindow := s.nextWindow + 1,
       docs := s.docs[s.nextWindow := docs], script := s.script[3..])
  }

  /** A window with unsaved documents is opened before the question is answered, and the answer lets the program
      quit: then it asks about the new window when the inhibitor is gone. */
  lemma NewWindow(s: State)
    requires OneUnsaved(s) && |s.script| >= 3
    requires s.script[0] == Open && s.script[1] == Change(s.nextWindow, Unsaved) && s.script[2] == Answer(false)
    ensures QueryRun(s).bodyAsks && QueryRun(s).exposed
  {
    hide CloseRun, Trying, Asked, DialogRun, QueryRun, RemoveRun, Kept, Opened, Holds, AsksAbout, Asks;
    var t, w, n := Trying(Asked(s)), s.windows[0], s.nextWindow;
    TriesWindow(s);
    WindowOpened(t, Unsaved, false);
    OneAsks(t, w);
    AskingIs(t, w);
    var d := DialogRun(t);
    DialogKept(t);
    KeptValid(t, d.s);
    RemoveKept(d.s, w);
    Known(t.windows, t.nextWindow);
    assert d.s.windows == [w, n];
    OneGone(w, n);
    NewAsks(n, d.s.docs);
    QueryGrows(s);
    QueryKept(s);
    ExactBack(s, QueryRun(s));
    ExactIs(QueryRun(s));
  }

  lemma OneGone(w: Window, n: Window)
    ensures Without([w, n], w) == [n]
  {
  }

  lemma NewAsks(window: Window, docs: map<Window, Docs>)
    requires DocsOf(docs, window) == Unsaved
    ensures Asks([window], docs, [window])
  {
  }

  lemma MainIs(s: State)
    ensures MainRun(s) == if s.exited || !s.running || s.script == [] then s else MainRun(StepRun(s).s)
  {
    hide StepRun;
  }

  ghost function WithUnsaved(script: seq<Event>): State {
    Start(script, true).(windows := [0], nextWindow := 1, docs := map[0 := Unsaved])
  }

  /** A run in which a window with unsaved documents is opened first. */
  lemma WindowFirst(script: seq<Event>)
    ensures MainRun(Start([Open, Change(0, Unsaved)] + script, true)) == MainRun(WithUnsaved(script))
    ensures Idle(WithUnsaved(script)) && OneUnsaved(WithUnsaved(script))
  {
    hide MainRun, StepRun;
    var s := Start([Open, Change(0, Unsaved)] + script, true);
    MainIs(s);
    StepIs(s);
    var t := WithWindow(Taken(s));
    MainIs(t);
    StepIs(t);
    assert s.script[1..][1..] == script;
    assert Changed(Taken(t), 0, Unsaved) == WithUnsaved(script);
  }

  lemma AsksFirstOfAll(script: seq<Event>)
    ensures QueryRun(WithUnsaved(script)).exposed ==> MainRun(WithUnsaved([QueryEnd] + script)).exposed
  {
    hide MainRun, StepRun, QueryRun, Opened;
    var s := WithUnsaved([QueryEnd] + script);
    WindowFirst([QueryEnd] + script);
    MainIs(s);
    StepIs(s);
    assert Taken(s) == WithUnsaved(script);
    IdleNext(s);
    var t := StepRun(s).s;
    if t.exited {
      MainIs(t);
    } else {
      WholeRun(t);
    }
  }

  // ----- a window that has just been opened

  /** It has nothing to ask about: closing it at once, while others are open or the program is quitting, leaves
      everything as it was, without a dialog. */
  lemma OpenedCloses(s: State)
    requires Valid(s) && (s.windows != [] || s.inTryQuit || !s.running)
    ensures var t := WithWindow(s);
      CloseRun(t, s.nextWindow) == Result(t.(windows := s.windows), true)
  {
    hide RemoveRun, Holds;
    var t, w := WithWindow(s), s.nextWindow;
    Known(s.windows, s.nextWindow);
    OneMore(s.windows, s.nextWindow);
    assert t.windows[|s.windows|] == w;
    CloseIs(t, w);
    LastGone(s.windows, w);
    RemoveOne(t, w);
  }

  lemma LastGone(windows: seq<Window>, w: Window)
    requires w !in windows
    ensures Without(windows + [w], w) == windows
  {
    IndexFirst(windows + [w], w, |windows|);
  }

  lemma RemoveOne(s: State, window: Window)
    requires window in s.windows && (!s.running || s.inTryQuit || Without(s.windows, window) != [])
    requires s.savedInTryQuit || !s.running || |s.windows| > 1
    ensures RemoveRun(s, window) == s.(windows := Without(s.windows, window))
  {
    hide Without, QuitRun;
  }

  // ----- when the process ends

  /** The events used up from one state to another. */
  function UsedUp(s: State, t: State): seq<Event>
    requires |t.script| <= |s.script|
  {
    s.script[..|s.script| - |t.script|]
  }

  /** The process ends in a step exactly if a signal is among the events that are used up in it, unless they all
      come while a signal is being handled. */
  ghost predicate Ends(s: State, t: State) {
    && |t.script| <= |s.script| && t.script == s.script[|s.script| - |t.script|..]
    && (t.exited <==> !s.inSignal && Signal in UsedUp(s, t)) && (!t.exited ==> t.inSignal == s.inSignal)
  }

  lemma EndsTrans(s: State, t: State, u: State)
    requires Ends(s, t) && !t.exited && Ends(t, u)
    ensures Ends(s, u)
  {
    assert UsedUp(s, u) == UsedUp(s, t) + UsedUp(t, u);
  }

  lemma EndsSame(s: State, t: State)
    requires !t.exited && t.script == s.script && t.inSignal == s.inSignal
    ensures Ends(s, t)
  {
  }

  lemma EndsLike(s: State, s': State, t: State, t': State)
    requires Ends(s, t) && s'.script == s.script && s'.inSignal == s.inSignal
    requires t'.script == t.script && t'.exited == t.exited && t'.inSignal == t.inSignal
    ensures Ends(s', t')
  {
  }

  lemma AfterCloseEnds(s: State)
    requires !s.exited
    ensures Ends(s, AfterClose(s))
    decreases |s.script|, |s.windows|, 6, 0
  {
    hide QuitRun, Ends;
    EndsSame(s, s);
    if s.running && !s.inTryQuit && s.windows == [] {
      var t := s.(inAfterClose := true);
      QuitEnds(t);
      EndsLike(t, s, QuitRun(t).s, AfterClose(s));
    }
  }

  lemma QuitEnds(s: State)
    requires !s.exited
    ensures Ends(s, QuitRun(s).s)
    decreases |s.script|, |s.windows|, 5, 0
  {
    hide TryQuitRun, BodyRun, Ends;
    EndsSame(s, s);
    if !s.inTryQuit && s.running {
      var r := TryQuitRun(s);
      TryQuitEnds(s);
      if !r.s.exited {
        if r.yes {
          BodyEnds(r.s);
          EndsTrans(s, r.s, BodyRun(r.s));
        }
        EndsLike(s, s, if r.yes then BodyRun(r.s) else r.s, QuitRun(s).s);
      }
    }
  }

  lemma TryQuitEnds(s: State)
    requires !s.exited
    ensures Ends(s, TryQuitRun(s).s)
    decreases |s.script|, |s.windows|, 4, 0
  {
    hide CloseList, Ends;
    var t := Trying(s);
    CloseListEnds(t, t.windows);
    EndsLike(t, s, CloseList(t, t.windows).s, TryQuitRun(s).s);
  }

  /** The quit body is left half-way exactly if a signal comes in one of its dialogs, and none is being handled. */
  lemma BodyEnds(s: State)
    requires !s.exited
    ensures Ends(s, BodyRun(s))
    decreases |s.script|, |s.windows|, 4, 0
  {
    hide CloseList, Ends, Stopped;
    EndsSame(s, s);
    BodyIs(s);
    if s.running {
      var t := Stopped(s);
      StoppedIs(s);
      CloseListEnds(t, s.windows);
      EndsLike(t, s, CloseList(t, s.windows).s, BodyRun(s));
    }
  }

  lemma CloseListEnds(s: State, all: seq<Window>)
    requires !s.exited
    ensures Ends(s, CloseList(s, all).s)
    decreases |s.script|, |s.windows|, 3, |all|
  {
    hide CloseRun, CloseList, Ends;
    CloseListIs(s, all);
    EndsSame(s, s);
    if all != [] {
      var r := CloseRun(s, all[0]);
      CloseEnds(s, all[0]);
      if !r.s.exited && r.yes {
        CloseListEnds(r.s, all[1..]);
        EndsTrans(s, r.s, CloseList(r.s, all[1..]).s);
      }
    }
  }

  lemma CloseEnds(s: State, window: Window)
    requires !s.exited
    ensures Ends(s, CloseRun(s, window).s)
    decreases |s.script|, |s.windows|, 2, 0
  {
    hide DialogRun, RemoveRun, Ends;
    EndsSame(s, s);
    if window in s.windows && DocsOf(s.docs, window) == Clean {
      RemoveEnds(s, window);
    } else if window in s.windows && DocsOf(s.docs, window) == Unsaved {
      var d := DialogRun(s);
      DialogEnds(s);
      if !d.s.exited && !d.yes && window in d.s.windows {
        RemoveEnds(d.s, window);
        EndsTrans(s, d.s, RemoveRun(d.s, window));
      }
    }
  }

  lemma RemoveEnds(s: State, window: Window)
    requires !s.exited
    ensures Ends(s, RemoveRun(s, window))
    decreases |s.script|, |s.windows|, 1, 0
  {
    hide AfterClose, Ends;
    EndsSame(s, s);
    if window in s.windows {
      var t := WillClose(s).(windows := Without(s.windows, window));
      EndsSame(s, t);
      AfterCloseEnds(t);
      EndsTrans(s, t, AfterClose(t));
    }
  }

  lemma DialogEnds(s: State)
    requires !s.exited
    ensures Ends(s, DialogRun(s).s)
    decreases |s.script|, |s.windows|, 1, 0
  {
    hide StepRun, DialogRun, Ends, Waiting;
    DialogIs(s);
    var t := Waiting(s);
    EndsSame(s, t);
    if s.script != [] {
      var a := StepRun(t);
      StepEnds(t);
      EndsTrans(s, t, a.s);
      if !a.s.exited && a.answer.None? {
        DialogEnds(a.s);
        EndsTrans(s, a.s, DialogRun(a.s).s);
      }
    }
  }

  lemma StepEnds(s: State)
    requires !s.exited
    ensures Ends(s, StepRun(s).s)
    decreases |s.script|, |s.windows|, 0, 0
  {
    hide QuitRun, QueryRun, CloseRun, SignalRun, StepRun, Ends, Taken, WithWindow, Changed;
    if s.script == [] {
      EndsSame(s, s);
      NoStep(s);
    } else {
      var t := Taken(s);
      StepIs(s);
      match s.script[0]
      case Quit =>
        QuitEnds(t);
        EndsNext(s, QuitRun(t).s);
      case QueryEnd =>
        QueryEnds(t);
        EndsNext(s, QueryRun(t));
      case Close(window) =>
        CloseEnds(t, window);
        EndsNext(s, CloseRun(t, window).s);
      case Signal =>
        if t.inSignal {
          EndsIgnored(s);
        } else {
          SignalEnds(t);
          EndsHere(s, SignalRun(t));
        }
      case Open =>
        EndsSame(t, WithWindow(t));
        EndsNext(s, WithWindow(t));
      case Change(window, docs) =>
        EndsSame(t, Changed(t, window, docs));
        EndsNext(s, Changed(t, window, docs));
      case Answer(cancel) =>
        EndsSame(t, t);
        EndsNext(s, t);
    }
  }

  lemma NoStep(s: State)
    ensures s.script == [] ==> StepRun(s) == Stepped(s, None)
  {
    hide QuitRun, QueryRun, CloseRun, SignalRun;
  }

  lemma EndsNext(s: State, t: State)
    requires s.script != [] && !s.script[0].Signal? && Ends(Taken(s), t)
    ensures Ends(s, t)
  {
    assert UsedUp(s, t) == [s.script[0]] + UsedUp(Taken(s), t);
  }

  lemma EndsIgnored(s: State)
    requires s.script != [] && s.inSignal && !s.exited
    ensures Ends(s, Taken(s))
  {
  }

  lemma EndsHere(s: State, t: State)
    requires s.script != [] && s.script[0].Signal? && !s.inSignal && t.exited
    requires var r := Taken(s).script; |t.script| <= |r| && t.script == r[|r| - |t.script|..]
    ensures Ends(s, t)
  {
    assert UsedUp(s, t)[0] == Signal;
  }

  lemma QueryEnds(s: State)
    requires !s.exited
    ensures Ends(s, QueryRun(s))
    decreases |s.script|, |s.windows|, 6, 0
  {
    hide QuitRun, QueryRun, Ends, Asked, Told, Released;
    var t := Asked(s);
    QuitEnds(t);
    QueryIs(s);
    EndsLike(t, s, QuitRun(t).s, QueryRun(s));
  }

  lemma SignalEnds(s: State)
    requires !s.exited
    ensures var t := SignalRun(s);
      t.exited && |t.script| <= |s.script| && t.script == s.script[|s.script| - |t.script|..]
    decreases |s.script|, |s.windows|, 6, 0
  {
    hide BodyRun;
    BodyEnds(SessionTaken(s).(inSignal := true));
  }

  /** The session known when the quit body begins is lost exactly if a signal comes in one of its dialogs, and none
      is being handled. */
  lemma BodyLoses(s: State)
    requires Base(s) && !s.exited && s.running && (s.inTryQuit ==> s.savedInTryQuit && s.inSignal) && Exact(s)
    requires s.sessionFile
    ensures var t := BodyRun(s);
      && |t.script| <= |s.script| && t.script == s.script[|s.script| - |t.script|..]
      && t.written == if !s.inSignal && Signal in UsedUp(s, t) then s.written else s.session
  {
    hide BodyRun, Base, Kept;
    BodyKept(s);
    BodyEnds(s);
  }

  // ----- runs in which a session is lost

  lemma SignalWhileAsking(s: State)
    requires Valid(s) && ExactNext(s) && !s.inSignal && s.script != [] && s.script[0] == Signal
    ensures DialogRun(s).s.exited
  {
    hide *;
    var t := Waiting(s);
    DialogIs(s);
    WaitingKept(s);
    TakenKept(t);
    StepIs(t);
    SignalKept(Taken(t));
  }

  /** A signal that comes while the quit body asks about a window ends the program before the session is written. */
  lemma SignalInBody(s: State)
    requires Base(s) && !s.exited && s.running && !s.inTryQuit && !s.inSignal && Exact(s)
    requires |s.windows| == 1 && DocsOf(s.docs, s.windows[0]) == Unsaved && s.script != [] && s.script[0] == Signal
    ensures BodyRun(s).exited && BodyRun(s).written == s.written
  {
    hide Stopped, CloseRun, CloseList, BodyRun, DialogRun, Asks, AsksAbout, Kept, Base;
    var t, n := Stopped(s), s.windows[0];
    StoppedIs(s);
    StoppedReady(s);
    NewAsks(n, s.docs);
    assert s.windows == [n];
    SignalWhileAsking(t);
    OneAsks(t, n);
    AskingIs(t, n);
    CloseListIs(t, s.windows);
    BodyIs(s);
    BodyKept(s);
  }

  lemma TriesAtOnce(s: State)
    requires OneUnsaved(s)
    ensures var t := Trying(s);
      && Valid(t) && Exact(t) && ExactNext(t) && t.inTryQuit && !t.due
      && t.windows == s.windows && t.docs == s.docs && t.script == s.script && t.nextWindow == s.nextWindow
      && t.written == s.written && t.inSignal == s.inSignal
  {
    hide Opened;
  }

  /** The same from an attempt to quit on, in which a window is opened. */
  lemma LateSignal(s: State)
    requires OneUnsaved(s) && |s.script| >= 4 && s.script[3] == Signal
    requires s.script[0] == Open && s.script[1] == Change(s.nextWindow, Unsaved) && s.script[2] == Answer(false)
    ensures QuitRun(s).s.exited && QuitRun(s).s.written == s.written
  {
    hide CloseRun, Trying, DialogRun, QuitRun, TryQuitRun, BodyRun, RemoveRun, Kept, Opened, Holds, AsksAbout, Asks;
    var t, w, n := Trying(s), s.windows[0], s.nextWindow;
    TriesAtOnce(s);
    WindowOpened(t, Unsaved, false);
    OneAsks(t, w);
    AskingIs(t, w);
    var d := DialogRun(t);
    DialogKept(t);
    KeptValid(t, d.s);
    RemoveKept(d.s, w);
    Known(t.windows, t.nextWindow);
    assert d.s.windows == [w, n];
    OneGone(w, n);
    TryOfOne(s);
    TryQuitKept(s);
    TriedReady(s, TryQuitRun(s).s);
    QuitIs(s);
    SignalInBody(TryQuitRun(s).s);
  }

  /** The program is asked to quit, a window is opened while it asks, and a signal comes when it asks about that
      one: the session that was taken down is not written. */
  lemma LostRun()
    ensures var t := MainRun(Start([Open, Change(0, Unsaved)] +
      [Quit, Open, Change(1, Unsaved), Answer(false), Signal], true)); t.exited && t.written == None
  {
    hide MainRun, QuitRun, StepRun;
    var a := [Open, Change(1, Unsaved), Answer(false), Signal];
    assert [Quit] + a == [Quit, Open, Change(1, Unsaved), Answer(false), Signal];
    WindowFirst([Quit] + a);
    WindowFirst(a);
    var s := WithUnsaved([Quit] + a);
    MainIs(s);
    StepIs(s);
    assert Taken(s) == WithUnsaved(a);
    LateSignal(WithUnsaved(a));
    MainIs(StepRun(s).s);
  }

  /** Two runs in which a dialog waits without an inhibitor: the session manager asks twice; a window is opened
      while the program asks, and it quits. */
  lemma ExposedRuns()
    ensures MainRun(Start([Open, Change(0, Unsaved)] + [QueryEnd, QueryEnd, Answer(true)], true)).exposed
    ensures MainRun(Start([Open, Change(0, Unsaved)] +
      [QueryEnd, Open, Change(1, Unsaved), Answer(false), Answer(true)], true)).exposed
  {
    hide MainRun, QueryRun, Idle, OneUnsaved;
    var a, b := [QueryEnd, Answer(true)], [Open, Change(1, Unsaved), Answer(false), Answer(true)];
    assert [QueryEnd] + a == [QueryEnd, QueryEnd, Answer(true)];
    assert [QueryEnd] + b == [QueryEnd, Open, Change(1, Unsaved), Answer(false), Answer(true)];
    WindowFirst([QueryEnd] + a);
    WindowFirst([QueryEnd] + b);
    WindowFirst(a);
    WindowFirst(b);
    SecondQuestion(WithUnsaved(a));
    NewWindow(WithUnsaved(b));
    AsksFirstOfAll(a);
    AsksFirstOfAll(b);
  }

  // ----- the program

  lemma CloseIs(s: State, window: Window)
    ensures var d := DialogRun(s);
      CloseRun(s, window) ==
        if window !in s.windows then Result(s, true)
        else match DocsOf(s.docs, window)
          case Busy => Result(s, false)
          case Clean => Result(RemoveRun(s, window), true)
          case Unsaved =>
            if d.s.exited || d.yes then Result(d.s, false)
            else if window in d.s.windows then Result(RemoveRun(d.s, window), true)
            else Result(d.s, true)
  {
    hide DialogRun, RemoveRun;
  }

  lemma {:induction false} IndexFirst(windows: seq<Window>, window: Window, i: nat)
    requires i < |windows| && windows[i] == window && forall j :: 0 <= j < i ==> windows[j] != window
    ensures Index(windows, window) == i
  {
    if i > 0 {
      IndexFirst(windows[1..], window, i - 1);
    }
  }

  class App {
    var running: bool
    var inTryQuit: bool
    var savedInTryQuit: bool
    var inAfterClose: bool
    var cookie: nat
    var sessionFile: bool
    var session: Option<seq<Window>>
    var windows: seq<Window>
    var docs: map<Window, Docs>
    var nextWindow: Window
    var script: seq<Event>
    var held: set<nat>
    var cookies: nat
    var written: Option<seq<Window>>
    var inSignal: bool
    var exited: bool
    ghost var quits: nat
    ghost var queries: nat
    ghost var quitting: bool
    ghost var due: bool
    ghost var exposed: bool
    ghost var again: bool
    ghost var bodyAsks: bool

    constructor (script: seq<Event>, sessionFile: bool)
      ensures Now() == Start(script, sessionFile)
    {
      running, inTryQuit, savedInTryQuit, inAfterClose := true, false, false, false;
      inSignal, exited := false, false;
      cookie, held, cookies := 0, {}, 0;
      session, written, windows, docs, nextWindow := None, None, [], map[], 0;
      this.script, this.sessionFile := script, sessionFile;
      quits, queries, quitting, due, exposed, again, bodyAsks := 0, 0, false, false, false, false, false;
    }

    ghost function Now(): State
      reads this
    {
      State(running, inTryQuit, savedInTryQuit, inAfterClose, cookie, sessionFile, session, windows, docs, nextWindow,
        script, held, cookies, written, inSignal, exited, quits, queries, quitting, due, exposed, again, bodyAsks)
    }

    /** Takes down which windows are open. */
    method SaveSession()
      modifies this`session
      ensures Now() == SessionTaken(old(Now()))
    {
      if !sessionFile {
        return;
      }
      session := Some(windows);
    }

    method WillCloseWindow()
      modifies this`session
      ensures Now() == WillClose(old(Now()))
    {
      if !running || savedInTryQuit {
        return;
      }
      if |windows| == 1 {
        SaveSession();
      }
    }

    method AfterCloseWindow()
      requires !exited
      modifies this
      ensures Now() == AfterClose(old(Now()))
      decreases |script|, |windows|, 6, 0
    {
      hide QuitRun, SessionTaken, WillClose, Settled, GivenUp, Trying, Stopped, Released, Taken, WithWindow,
        Changed, Waiting, Asked, Noted, Inhibited, Halted, Marked, Counted, Begun, Told, Without, Index, Asks,
        DocsOf;
      if !running || inTryQuit {
        return;
      }
      if |windows| == 0 {
        inAfterClose := true;
        assert Now() == old(Now()).(inAfterClose := true);
        var r := Quit();
        if exited {
          return;
        }
        ghost var t := Now();
        inAfterClose := false;
        assert Now() == t.(inAfterClose := false);
      }
    }

    /** Quits unless that is going on or done already, or a dialog is cancelled. */
    method Quit() returns (r: bool)
      requires !exited
      modifies this
      ensures Result(Now(), r) == QuitRun(old(Now()))
      decreases |script|, |windows|, 5, 0
    {
      hide TryQuitRun, BodyRun, QuitRun, SessionTaken, WillClose, GivenUp, Trying, Stopped, Released, Taken,
        WithWindow, Changed, Waiting, Asked, Noted, Inhibited, Halted, Marked, Counted, Begun, Told, Without, Index,
        Asks, DocsOf;
      QuitIs(Now());
      if inTryQuit || !running {
        return true;
      }
      ghost var wasDue := due;
      r := TryQuit();
      if exited {
        return;
      }
      if r {
        DoQuit();
        if exited {
          return true;
        }
      }
      quitting, due := false, wasDue;
    }

    /** Closes all windows; the session is that of the windows now open, if it is not known already. */
    method TryQuit() returns (closed: bool)
      requires !exited
      modifies this
      ensures Result(Now(), closed) == TryQuitRun(old(Now()))
      decreases |script|, |windows|, 4, 0
    {
      hide CloseList, TryQuitRun, SessionTaken, WillClose, Settled, GivenUp, Trying, Stopped, Released, Taken,
        WithWindow, Changed, Waiting, Asked, Noted, Inhibited, Halted, Marked, Counted, Begun, Told, Without, Index,
        Asks, DocsOf;
      TryQuitIs(Now());
      BeginTry();
      closed := CloseAll();
      if exited {
        return;
      }
      EndTry();
    }

    method BeginTry()
      modifies this`inTryQuit, this`savedInTryQuit, this`session, this`quitting
      ensures Now() == Trying(old(Now())) && windows == old(windows)
    {
      hide SessionTaken;
      inTryQuit := true;
      quitting := true;
      assert Now() == Begun(old(Now()));
      if !inAfterClose {
        BeginSaving();
      }
    }

    method BeginSaving()
      modifies this`savedInTryQuit, this`session
      ensures Now() == SessionTaken(old(Now()).(savedInTryQuit := true)) && windows == old(windows)
    {
      hide SessionTaken;
      savedInTryQuit := true;
      SaveSession();
    }

    method EndTry()
      modifies this`inTryQuit, this`savedInTryQuit
      ensures Now() == GivenUp(old(Now()))
    {
      savedInTryQuit := false;
      inTryQuit := false;
    }

    /** The quit body. */
    method DoQuit()
      requires !exited
      modifies this
      ensures Now() == BodyRun(old(Now()))
      decreases |script|, |windows|, 4, 0
    {
      hide CloseList, BodyRun, SessionTaken, WillClose, Settled, GivenUp, Trying, Stopped, Released, Taken,
        WithWindow, Changed, Waiting, Asked, Noted, Inhibited, Halted, Marked, Counted, Begun, Told, Without, Index,
        Asks, DocsOf;
      BodyIs(Now());
      if !running {
        return;
      }
      Stop();
      var closed := CloseAll();
      if exited {
        return;
      }
      WriteSession();
    }

    method Stop()
      modifies this`running, this`held, this`cookie, this`quits, this`quitting, this`bodyAsks
      ensures Now() == Stopped(old(Now())) && windows == old(windows)
    {
      hide Halted, Released;
      Halt();
      Release();
    }

    method Halt()
      modifies this`running, this`quits, this`quitting, this`bodyAsks
      ensures Now() == Halted(old(Now())) && windows == old(windows)
    {
      hide Marked, Counted;
      Mark();
      Count();
    }

    method Count()
      modifies this`running, this`quits
      ensures Now() == Counted(old(Now())) && windows == old(windows)
    {
      running := false;
      quits := quits + 1;
    }

    ghost method Mark()
      modifies this`quitting, this`bodyAsks
      ensures Now() == Marked(old(Now())) && windows == old(windows)
    {
      hide Asks;
      bodyAsks := bodyAsks || (due && Asks(windows, docs, windows));
      quitting := true;
    }

    /** Gives the inhibitor back. */
    method Release()
      modifies this`held, this`cookie
      ensures Now() == Released(old(Now()))
    {
      if cookie != 0 {
        held := held - {cookie};
        cookie := 0;
      }
    }

    method WriteSession()
      modifies this`written
      ensures Now() == if old(sessionFile) then old(Now()).(written := old(session)) else old(Now())
    {
      if sessionFile {
        written := session;
      }
    }

    method CloseAll() returns (r: bool)
      requires !exited
      modifies this
      ensures Result(Now(), r) == CloseList(old(Now()), old(windows))
      decreases |script|, |windows|, 3, |windows|
    {
      hide CloseList, CloseRun, SessionTaken, WillClose, Settled, GivenUp, Trying, Stopped, Released, Taken,
        WithWindow, Changed, Waiting, Asked, Noted, Inhibited, Halted, Marked, Counted, Begun, Told, Without, Index,
        Asks, DocsOf;
      var all, i := windows, 0;
      assert all[0..] == all;
      while i < |all|
        invariant !exited && i <= |all| && CloseList(Now(), all[i..]) == CloseList(old(Now()), all)
        invariant |script| <= |old(script)| && (|script| == |old(script)| ==> |windows| <= |old(windows)|)
      {
        CloseListIs(Now(), all[i..]);
        assert all[i..][0] == all[i] && all[i..][1..] == all[i + 1..];
        var closed := CloseWindow(all[i]);
        if exited || !closed {
          return closed;
        }
        i := i + 1;
      }
      CloseListIs(Now(), all[i..]);
      return true;
    }

    /** Closes a window, unless a document is busy, the user cancels, or it is closed while the user is asked. */
    method CloseWindow(window: Window) returns (r: bool)
      requires !exited
      modifies this
      ensures Result(Now(), r) == CloseRun(old(Now()), window)
      decreases |script|, |windows|, 2, 0
    {
      hide DialogRun, RemoveRun, CloseRun, SessionTaken, WillClose, Settled, GivenUp, Trying, Stopped, Released,
        Taken, WithWindow, Changed, Waiting, Asked, Noted, Inhibited, Halted, Marked, Counted, Begun, Told, Without,
        Index, Asks;
      CloseIs(Now(), window);
      if window !in windows {
        return true;
      }
      var cancel := BeforeClose(window);
      if exited {
        return false;
      }
      if !cancel && window in windows {
        DoCloseWindow(window);
      }
      return !cancel;
    }

    /** A busy document forbids closing; the user is asked about unsaved ones. */
    method BeforeClose(window: Window) returns (cancel: bool)
      requires !exited
      modifies this
      ensures match DocsOf(old(docs), window)
        case Clean => !cancel && Now() == old(Now())
        case Busy => cancel && Now() == old(Now())
        case Unsaved => Result(Now(), cancel) == DialogRun(old(Now()))
      decreases |script|, |windows|, 1, 1
    {
      hide DialogRun, SessionTaken, WillClose, Settled, GivenUp, Trying, Stopped, Released, Taken, WithWindow,
        Changed, Waiting, Asked, Noted, Inhibited, Halted, Marked, Counted, Begun, Told, Without, Index, Asks;
      match DocsOf(docs, window) {
        case Clean => return false;
        case Busy => return true;
        case Unsaved => cancel := Dialog();
      }
    }

    method DoCloseWindow(window: Window)
      requires !exited && window in windows
      modifies this
      ensures Now() == RemoveRun(old(Now()), window)
      decreases |script|, |windows|, 1, 0
    {
      hide AfterClose, SessionTaken, WillClose, Settled, GivenUp, Trying, Stopped, Released, Taken, WithWindow,
        Changed, Waiting, Asked, Noted, Inhibited, Halted, Marked, Counted, Begun, Told, Asks, DocsOf;
      WillCloseWindow();
      var i := 0;
      while windows[i] != window
        invariant 0 <= i <= Index(windows, window) && forall j :: 0 <= j < i ==> windows[j] != window
        decreases |windows| - i
      {
        i := i + 1;
      }
      IndexFirst(windows, window, i);
      ghost var t := Now();
      windows := windows[..i] + windows[i + 1..];
      assert Now() == t.(windows := Without(t.windows, window));
      AfterCloseWindow();
    }

    /** Waits for an answer; anything can happen until it comes. */
    method Dialog() returns (cancel: bool)
      requires !exited
      modifies this
      ensures Result(Now(), cancel) == DialogRun(old(Now()))
      decreases |script|, |windows|, 1, 0
    {
      hide DialogRun, StepRun, SessionTaken, WillClose, Settled, GivenUp, Trying, Stopped, Released, Taken,
        WithWindow, Changed, Asked, Noted, Inhibited, Halted, Marked, Counted, Begun, Told, Without, Index, Asks,
        DocsOf;
      while true
        invariant !exited && DialogRun(Now()) == DialogRun(old(Now()))
        invariant |script| <= |old(script)| && (|script| == |old(script)| ==> |windows| <= |old(windows)|)
        decreases |script|
      {
        DialogIs(Now());
        Wait();
        if script == [] {
          return true;
        }
        var answer := Step();
        if exited {
          return true;
        }
        if answer.Some? {
          return answer.value;
        }
      }
    }

    ghost method Wait()
      modifies this`exposed
      ensures Now() == Waiting(old(Now()))
    {
      if due && cookie == 0 {
        exposed := true;
      }
    }

    /** The next event. */
    method Step() returns (answer: Option<bool>)
      requires !exited && script != []
      modifies this
      ensures Stepped(Now(), answer) == StepRun(old(Now()))
      decreases |script|, |windows|, 0, 0
    {
      hide StepRun, QuitRun, QueryRun, CloseRun, SignalRun, SessionTaken, WillClose, Settled, GivenUp, Trying,
        Stopped, Released, Taken, WithWindow, Changed, Waiting, Asked, Noted, Inhibited, Halted, Marked, Counted,
        Begun, Told, Without, Index, Asks, DocsOf;
      StepIs(Now());
      var event := TakeEvent();
      answer := None;
      match event {
        case Quit =>
          var r := Quit();
        case QueryEnd => QueryEnd();
        case Close(window) =>
          var r := CloseWindow(window);
        case Open =>
          OpenWindow();
        case Change(window, now) =>
          ChangeDocs(window, now);
        case Signal =>
          if !inSignal {
            CheckSignal();
          }
        case Answer(cancel) => answer := Some(cancel);
      }
    }

    method TakeEvent() returns (event: Event)
      requires script != []
      modifies this`script
      ensures event == old(script)[0] && Now() == Taken(old(Now())) && |script| < |old(script)|
    {
      event := script[0];
      script := script[1..];
    }

    method OpenWindow()
      modifies this`windows, this`nextWindow, this`docs
      ensures Now() == WithWindow(old(Now()))
    {
      hide WithWindow;
      var more, now := windows + [nextWindow], docs[nextWindow := Clean];
      OpenedIs(Now(), more, now);
      windows, nextWindow, docs := more, nextWindow + 1, now;
    }

    lemma OpenedIs(s: State, more: seq<Window>, now: map<Window, Docs>)
      requires more == s.windows + [s.nextWindow] && now == s.docs[s.nextWindow := Clean]
      ensures WithWindow(s) == s.(windows := more, nextWindow := s.nextWindow + 1, docs := now)
    {
    }

    method ChangeDocs(window: Window, now: Docs)
      modifies this`docs
      ensures Now() == Changed(old(Now()), window, now)
    {
      hide Changed;
      var changed := docs[window := now];
      ChangedIs(Now(), window, now, changed);
      docs := changed;
    }

    lemma ChangedIs(s: State, window: Window, now: Docs, changed: map<Window, Docs>)
      requires changed == s.docs[window := now]
      ensures Changed(s, window, now) == s.(docs := changed)
    {
    }

    /** The session ends. */
    method QueryEnd()
      requires !exited
      modifies this
      ensures Now() == QueryRun(old(Now()))
      decreases |script|, |windows|, 6, 0
    {
      hide QuitRun, QueryRun, SessionTaken, WillClose, Settled, GivenUp, Trying, Stopped, Released, Taken,
        WithWindow, Changed, Waiting, Asked, Noted, Inhibited, Halted, Marked, Counted, Begun, Told, Without, Index,
        Asks, DocsOf;
      QueryIs(Now());
      ghost var was := Now();
      Inhibit();
      var r := Quit();
      if exited {
        return;
      }
      Release();
      EndQuery(was);
    }

    ghost method EndQuery(was: State)
      modifies this`queries, this`due
      ensures Now() == Told(old(Now()), was)
    {
      queries, due := queries + 1, was.quitting;
    }

    /** Takes an inhibitor unless there is one. */
    method Inhibit()
      modifies this`held, this`cookie, this`cookies, this`due, this`again
      ensures Now() == Asked(old(Now()))
    {
      due, again := true, again || quitting;
      assert Now() == Noted(old(Now()));
      if cookie == 0 {
        TakeInhibitor();
      }
    }

    method TakeInhibitor()
      modifies this`held, this`cookie, this`cookies
      ensures Now() == Inhibited(old(Now()))
    {
      hide Inhibited;
      var taken := cookies + 1;
      var now := held + {taken};
      InhibitedIs(Now(), taken, now);
      cookies, cookie, held := taken, taken, now;
    }

    lemma InhibitedIs(s: State, taken: nat, held: set<nat>)
      requires taken == s.cookies + 1 && held == s.held + {taken}
      ensures Inhibited(s) == s.(cookies := taken, cookie := taken, held := held)
    {
    }

    /** A signal ends the process, after the quit body if that has not run. */
    method CheckSignal()
      requires !exited
      modifies this
      ensures Now() == SignalRun(old(Now()))
      decreases |script|, |windows|, 6, 0
    {
      hide BodyRun, SessionTaken, WillClose, Settled, GivenUp, Trying, Stopped, Released, Taken, WithWindow,
        Changed, Waiting, Asked, Noted, Inhibited, Halted, Marked, Counted, Begun, Told, Without, Index, Asks,
        DocsOf;
      BeginSignal();
      DoQuit();
      exited := true;
    }

    method BeginSignal()
      modifies this`session, this`inSignal
      ensures Now() == SessionTaken(old(Now())).(inSignal := true)
    {
      hide SessionTaken;
      SaveSession();
      inSignal := true;
    }

    /** The main loop. */
    method Run()
      modifies this
      ensures Now() == MainRun(old(Now()))
    {
      hide MainRun, StepRun, SessionTaken, WillClose, Settled, GivenUp, Trying, Stopped, Released, Taken,
        WithWindow, Changed, Waiting, Asked, Noted, Inhibited, Halted, Marked, Counted, Begun, Told, Without, Index,
        Asks, DocsOf;
      while !exited && running && script != []
        invariant MainRun(Now()) == MainRun(old(Now()))
        decreases |script|
      {
        MainIs(Now());
        var answer := Step();
      }
      MainIs(Now());
    }
  }
}
