/** The bookmarks of a document: a list that is put in order only when somebody looks at it
    (src/mooedit/mooeditbookmark.cpp). */
module Bookmarks {

  class Bookmark {
    var line: int
    var no: nat
    var deleted: bool
    var connected: bool

    constructor (line: int)
      ensures this.line == line && no == 0 && !deleted && connected
    {
      this.line, no, deleted, connected := line, 0, false, true;
    }
  }

  ghost predicate Distinct(s: seq<Bookmark>) {
    forall i, j :: 0 <= i < j < |s| ==> s[i] != s[j]
  }

  /** Lines go up, equal ones side by side. */
  ghost predicate Ascending(s: seq<Bookmark>)
    reads s
  {
    forall i, j :: 0 <= i < j < |s| ==> s[i].line <= s[j].line
  }

  ghost predicate Strict(s: seq<Bookmark>)
    reads s
  {
    forall i, j :: 0 <= i < j < |s| ==> s[i].line < s[j].line
  }

  /** What a look at the list should find: bookmarks in order, and none that is deleted. */
  ghost predicate Right(s: seq<Bookmark>)
    reads s
  {
    Strict(s) && forall i :: 0 <= i < |s| ==> !s[i].deleted
  }

  /** One bookmark comes before another one. */
  ghost predicate Before(s: seq<Bookmark>, a: Bookmark, b: Bookmark) {
    exists i, j :: 0 <= i < j < |s| && s[i] == a && s[j] == b
  }

  /** Bookmarks on one line stay in the order they were in. */
  ghost predicate Stable(s: seq<Bookmark>, t: seq<Bookmark>)
    reads t
  {
    forall i, j :: 0 <= i < j < |t| && t[i].line == t[j].line ==> Before(s, t[i], t[j])
  }

  // ----- sorting a list

  /** The first place whose line is not smaller. */
  function Place(b: Bookmark, s: seq<Bookmark>): (k: nat)
    reads b, s
    ensures k <= |s| && (forall i :: 0 <= i < k ==> s[i].line < b.line) && (k < |s| ==> b.line <= s[k].line)
  {
    if s == [] || b.line <= s[0].line then 0 else 1 + Place(b, s[1..])
  }

  function Insert(b: Bookmark, s: seq<Bookmark>): (r: seq<Bookmark>)
    reads b, s
    ensures |r| == |s| + 1
    ensures var k := Place(b, s);
      forall i :: 0 <= i <= |s| ==> r[i] == if i < k then s[i] else if i == k then b else s[i - 1]
  {
    var k := Place(b, s);
    s[..k] + [b] + s[k..]
  }

  function Sort(s: seq<Bookmark>): (r: seq<Bookmark>)
    reads s
    ensures |r| == |s| && (forall i :: 0 <= i < |r| ==> r[i] in s)
  {
    if s == [] then [] else Insert(s[0], Sort(s[1..]))
  }

  lemma Inserted(b: Bookmark, s: seq<Bookmark>)
    requires Ascending(s) && Distinct(s) && b !in s
    ensures Ascending(Insert(b, s)) && Distinct(Insert(b, s))
    ensures forall x :: x in Insert(b, s) <==> x == b || x in s
    ensures Strict(s) && (forall x :: x in s ==> x.line != b.line) ==> Strict(Insert(b, s))
  {
    hide Place;
    var r, k := Insert(b, s), Place(b, s);
    forall x | x in s ensures x in r {
      var i :| 0 <= i < |s| && s[i] == x;
      assert r[if i < k then i else i + 1] == x;
    }
    assert r[k] == b;
  }

  lemma Ahead(b: Bookmark, s: seq<Bookmark>)
    requires Distinct(s) && b !in s
    ensures Distinct([b] + s) && forall x :: x in [b] + s <==> x == b || x in s
  {
  }

  lemma InsertedStrict(b: Bookmark, s: seq<Bookmark>)
    requires Strict(s) && forall x :: x in s ==> x.line != b.line
    ensures Strict(Insert(b, s)) && Distinct(Insert(b, s)) && forall x :: x in Insert(b, s) <==> x == b || x in s
  {
    Inserted(b, s);
  }

  lemma {:induction false} Sorted(s: seq<Bookmark>)
    requires Distinct(s)
    ensures Ascending(Sort(s)) && Distinct(Sort(s)) && Stable(s, Sort(s))
    ensures forall x :: x in s ==> x in Sort(s)
  {
    hide Place, Ascending, Distinct, Strict, Before, Stable;
    if s == [] {
      NoneStable();
    } else {
      var b, rest := s[0], s[1..];
      assert s == [b] + rest;
      Rest(b, rest);
      Sorted(rest);
      Inserted(b, Sort(rest));
      StillStable(b, rest, Sort(rest));
    }
  }

  lemma NoneStable()
    ensures Ascending([]) && Distinct([]) && Stable([], [])
  {
  }

  lemma Rest(b: Bookmark, rest: seq<Bookmark>)
    requires Distinct([b] + rest)
    ensures Distinct(rest) && b !in rest
  {
    var s := [b] + rest;
    assert forall i :: 0 <= i < |rest| ==> s[i + 1] == rest[i];
    assert s[0] == b;
  }

  lemma StillStable(b: Bookmark, rest: seq<Bookmark>, t: seq<Bookmark>)
    requires Stable(rest, t) && forall i :: 0 <= i < |t| ==> t[i] in rest
    ensures Stable([b] + rest, Insert(b, t))
  {
    hide Place, Before;
    var k, r := Place(b, t), Insert(b, t);
    forall i, j | 0 <= i < j < |r| && r[i].line == r[j].line ensures Before([b] + rest, r[i], r[j]) {
      if i == k {
        FirstBefore(b, rest, r[j]);
      } else {
        assert j != k;
        LaterBefore(b, rest, r[i], r[j]);
      }
    }
  }

  lemma FirstBefore(b: Bookmark, rest: seq<Bookmark>, x: Bookmark)
    requires x in rest
    ensures Before([b] + rest, b, x)
  {
    var n :| 0 <= n < |rest| && rest[n] == x;
    assert ([b] + rest)[0] == b && ([b] + rest)[n + 1] == x;
  }

  lemma LaterBefore(b: Bookmark, rest: seq<Bookmark>, x: Bookmark, y: Bookmark)
    requires Before(rest, x, y)
    ensures Before([b] + rest, x, y)
  {
    var m, n :| 0 <= m < n < |rest| && rest[m] == x && rest[n] == y;
    assert ([b] + rest)[m + 1] == x && ([b] + rest)[n + 1] == y;
  }

  // ----- putting a list in order

  /** A bookmark that is not deleted, and none behind it in the list is on its line. */
  ghost predicate Keeps(s: seq<Bookmark>, b: Bookmark)
    reads s
  {
    b in s && !b.deleted && forall c :: c in s && Before(s, b, c) && !c.deleted ==> c.line != b.line
  }

  /** The bookmarks of a list in the order of another one. */
  ghost predicate SameWay(t: seq<Bookmark>, s: seq<Bookmark>) {
    forall i, j :: 0 <= i < j < |t| ==> Before(s, t[i], t[j])
  }

  lemma SameWays(t: seq<Bookmark>, s: seq<Bookmark>, r: seq<Bookmark>)
    requires SameWay(t, s) && SameWay(s, r)
    ensures SameWay(t, r)
  {
    forall i, j | 0 <= i < j < |t| ensures Before(r, t[i], t[j]) {
      assert Before(s, t[i], t[j]);
      var m, n :| 0 <= m < n < |s| && s[m] == t[i] && s[n] == t[j];
      assert Before(r, s[m], s[n]);
    }
  }

  lemma ItsWay(s: seq<Bookmark>)
    ensures SameWay(s, s)
  {
  }

  lemma StrictFewer(s: seq<Bookmark>, t: seq<Bookmark>)
    requires Strict(s) && SameWay(t, s)
    ensures Strict(t)
  {
    forall i, j | 0 <= i < j < |t| ensures t[i].line < t[j].line {
      assert Before(s, t[i], t[j]);
    }
  }

  lemma OneWay(s: seq<Bookmark>, a: Bookmark, b: Bookmark)
    requires Distinct(s) && a in s && b in s && a != b
    ensures Before(s, a, b) <==> !Before(s, b, a)
  {
    var i :| 0 <= i < |s| && s[i] == a;
    var j :| 0 <= j < |s| && s[j] == b;
    if i < j {
      assert Before(s, a, b);
    } else {
      assert Before(s, b, a);
    }
  }

  /** What is left of a list in a stable order, in which the bookmarks on one line come last one first, when
      only the first of each line is kept. */
  lemma KeepsFirst(s: seq<Bookmark>, t: seq<Bookmark>, i: nat)
    requires Distinct(s) && Ascending(t) && Distinct(t) && i < |t|
    requires forall b :: b in t <==> b in s && !b.deleted
    requires forall a, b :: a in t && b in t && Before(t, a, b) && a.line == b.line ==> Before(s, b, a)
    ensures Keeps(s, t[i]) <==> i == 0 || t[i - 1].line < t[i].line
  {
    hide Before;
    var b := t[i];
    assert b in t;
    if i > 0 && t[i - 1].line == b.line {
      var c := t[i - 1];
      assert c in t && Before(t, c, b) by {
        Places(t, i - 1, i);
      }
      assert Before(s, b, c);
    } else {
      forall c | c in s && Before(s, b, c) && !c.deleted ensures c.line != b.line {
        assert c in t;
        var j :| 0 <= j < |t| && t[j] == c;
        NotSelf(s, b, c);
        if j > i && c.line == b.line {
          Places(t, i, j);
          OneWay(s, b, c);
        }
      }
    }
  }

  lemma NotSelf(s: seq<Bookmark>, a: Bookmark, b: Bookmark)
    requires Distinct(s) && Before(s, a, b)
    ensures a != b
  {
  }

  lemma Places(s: seq<Bookmark>, i: nat, j: nat)
    requires i < j < |s|
    ensures Before(s, s[i], s[j])
  {
  }

  /** The bookmarks of a list that are not deleted, last one first, and the others. */
  method Live(s: seq<Bookmark>) returns (live: seq<Bookmark>, dead: seq<Bookmark>)
    requires Distinct(s)
    ensures Distinct(live) && forall b :: b in live <==> b in s && !b.deleted
    ensures forall a, b :: Before(live, a, b) ==> Before(s, b, a)
    ensures forall b :: b in dead <==> b in s && b.deleted
  {
    live, dead := [], [];
    var i := 0;
    while i < |s|
      invariant i <= |s| && Distinct(live)
      invariant forall b :: b in live <==> b in s[..i] && !b.deleted
      invariant forall b :: b in dead <==> b in s[..i] && b.deleted
      invariant forall a, b :: Before(live, a, b) ==> Before(s, b, a)
    {
      assert s[..i + 1] == s[..i] + [s[i]];
      if s[i].deleted {
        dead := [s[i]] + dead;
      } else {
        Earlier(s, i, live);
        live := [s[i]] + live;
      }
      i := i + 1;
    }
    assert s[..i] == s;
  }

  lemma Earlier(s: seq<Bookmark>, i: nat, live: seq<Bookmark>)
    requires Distinct(s) && i < |s| && Distinct(live) && forall b :: b in live ==> b in s[..i]
    requires forall a, b :: Before(live, a, b) ==> Before(s, b, a)
    ensures Distinct([s[i]] + live) && forall a, b :: Before([s[i]] + live, a, b) ==> Before(s, b, a)
  {
    var r := [s[i]] + live;
    assert forall k :: 0 <= k < i ==> s[..i][k] == s[k];
    assert s[i] !in live;
    forall a, b | Before(r, a, b) ensures Before(s, b, a) {
      var m, n :| 0 <= m < n < |r| && r[m] == a && r[n] == b;
      assert r[n] == live[n - 1];
      if m == 0 {
        assert b in s[..i];
        var k :| 0 <= k < i && s[..i][k] == b;
        Places(s, k, i);
      } else {
        Places(live, m - 1, n - 1);
      }
    }
  }

  ghost predicate FirstOfLine(s: seq<Bookmark>, i: nat)
    requires i < |s|
    reads s
  {
    i == 0 || s[i - 1].line < s[i].line
  }

  /** Of the first i bookmarks, some are kept and the others are not. */
  ghost predicate Parted(s: seq<Bookmark>, i: nat, kept: seq<Bookmark>, dup: seq<Bookmark>)
    requires i <= |s|
    reads s
  {
    && (forall b :: b in kept ==> b in s[..i]) && (forall b :: b in dup ==> b in s[..i])
    && (forall j :: 0 <= j < i ==> (s[j] in kept <==> FirstOfLine(s, j)))
    && (forall j :: 0 <= j < i ==> (s[j] in dup <==> s[j] !in kept))
  }

  lemma PartedNext(s: seq<Bookmark>, i: nat, kept: seq<Bookmark>, dup: seq<Bookmark>)
    requires i < |s| && Distinct(s) && Parted(s, i, kept, dup)
    ensures FirstOfLine(s, i) ==> Parted(s, i + 1, kept + [s[i]], dup)
    ensures !FirstOfLine(s, i) ==> Parted(s, i + 1, kept, [s[i]] + dup)
  {
    hide FirstOfLine;
    assert s[..i + 1] == s[..i] + [s[i]];
    assert s[i] !in s[..i];
    assert forall j :: 0 <= j < i ==> s[j] in s[..i];
  }

  /** The first bookmark of each line of a sorted list, and the others. */
  method Unique(s: seq<Bookmark>) returns (kept: seq<Bookmark>, dup: seq<Bookmark>)
    requires Ascending(s) && Distinct(s)
    ensures Strict(kept) && Parted(s, |s|, kept, dup)
  {
    hide Parted;
    kept, dup := [], [];
    NoneParted(s);
    var i := 0;
    while i < |s|
      invariant i <= |s| && Strict(kept) && Parted(s, i, kept, dup) && (kept == [] <==> i == 0)
      invariant i > 0 ==> kept[|kept| - 1].line == s[i - 1].line
    {
      PartedNext(s, i, kept, dup);
      if kept != [] && kept[|kept| - 1].line == s[i].line {
        dup := [s[i]] + dup;
      } else {
        kept := kept + [s[i]];
      }
      i := i + 1;
    }
  }

  lemma NoneParted(s: seq<Bookmark>)
    ensures Parted(s, 0, [], [])
  {
  }

  /** A list in order, and the bookmarks that go because they are deleted, or because others are on their lines. */
  method InOrder(s: seq<Bookmark>) returns (kept: seq<Bookmark>, dead: seq<Bookmark>, dup: seq<Bookmark>)
    requires Distinct(s)
    ensures Strict(kept) && Distinct(kept) && forall b :: b in kept <==> Keeps(s, b)
    ensures forall b :: b in kept ==> b in s && !b.deleted
    ensures forall b :: b in dead <==> b in s && b.deleted
    ensures forall b :: b in dup <==> b in s && !b.deleted && b !in kept
  {
    hide Keeps, Parted, Distinct, Before, Stable;
    var live;
    live, dead := Live(s);
    var sorted := Sort(live);
    Sorted(live);
    SameOrder(s, live, sorted);
    kept, dup := Unique(sorted);
    OnesKept(s, sorted, kept, dup);
  }

  lemma SameOrder(s: seq<Bookmark>, live: seq<Bookmark>, t: seq<Bookmark>)
    requires Stable(live, t) && forall a, b :: Before(live, a, b) ==> Before(s, b, a)
    ensures forall a, b :: a in t && b in t && Before(t, a, b) && a.line == b.line ==> Before(s, b, a)
  {
    forall a, b | Before(t, a, b) && a.line == b.line ensures Before(s, b, a) {
      var i, j :| 0 <= i < j < |t| && t[i] == a && t[j] == b;
      assert Before(live, t[i], t[j]);
    }
  }

  lemma OnesKept(s: seq<Bookmark>, t: seq<Bookmark>, kept: seq<Bookmark>, dup: seq<Bookmark>)
    requires Distinct(s) && Ascending(t) && Distinct(t) && Parted(t, |t|, kept, dup) && Strict(kept)
    requires forall b :: b in t <==> b in s && !b.deleted
    requires forall a, b :: a in t && b in t && Before(t, a, b) && a.line == b.line ==> Before(s, b, a)
    ensures Distinct(kept) && (forall b :: b in kept <==> Keeps(s, b)) && forall b :: b in kept ==> b in t
    ensures forall b :: b in dup <==> b in s && !b.deleted && b !in kept
  {
    hide Before;
    assert t[..|t|] == t;
    forall b | b in t ensures (b in kept <==> Keeps(s, b)) && (b in dup <==> b !in kept) {
      var i :| 0 <= i < |t| && t[i] == b;
      KeepsFirst(s, t, i);
    }
  }

  /** The bookmarks on some lines, up to the first one behind them. */
  method Range(all: seq<Bookmark>, first: int, last: int) returns (range: seq<Bookmark>)
    requires Strict(all)
    ensures Strict(range) && forall b :: b in range <==> b in all && first <= b.line <= last
  {
    range := [];
    var i := 0;
    while i < |all|
      invariant i <= |all| && Strict(range)
      invariant forall b :: b in range <==> b in all[..i] && first <= b.line <= last
    {
      var line := all[i].line;
      if line > last {
        break;
      }
      assert all[..i + 1] == all[..i] + [all[i]];
      assert forall k :: 0 <= k < |range| ==> range[k] in range && range[k].line < line;
      if line >= first {
        range := range + [all[i]];
      }
      i := i + 1;
    }
    assert forall k :: i <= k < |all| ==> last < all[k].line;
    assert all == all[..i] + all[i..];
  }

  /** A bookmark of the list, but for one perhaps, has a number. */
  ghost predicate Uses(s: seq<Bookmark>, but: Bookmark?, n: nat)
    reads s
  {
    exists i :: 0 <= i < |s| && s[i].no == n && s[i] != but
  }

  /** The least digit that is not 0 and no bookmark's number, or else 0. */
  ghost predicate LeastFree(s: seq<Bookmark>, but: Bookmark?, no: nat)
    reads s
  {
    && no < 10 && (no != 0 ==> !Uses(s, but, no))
    && forall n {:trigger Uses(s, but, n)} :: 0 < n < (if no == 0 then 10 else no) ==> Uses(s, but, n)
  }

  /** Numbers are digits, and different but for 0. */
  ghost predicate Numbers(s: seq<Bookmark>)
    reads s
  {
    && (forall i :: 0 <= i < |s| ==> s[i].no < 10)
    && (forall i, j :: 0 <= i < |s| && 0 <= j < |s| && s[i] != s[j] ==> s[i].no != s[j].no || s[i].no == 0)
  }

  lemma UsesMore(was: seq<Bookmark>, now: seq<Bookmark>, bk: Bookmark, n: nat)
    requires bk !in was && forall b :: b in now <==> b == bk || b in was
    ensures Uses(now, bk, n) <==> Uses(was, null, n)
  {
    if Uses(now, bk, n) {
      var i :| 0 <= i < |now| && now[i].no == n && now[i] != bk;
      assert now[i] in was;
      var j :| 0 <= j < |was| && was[j] == now[i];
    }
    if Uses(was, null, n) {
      var i :| 0 <= i < |was| && was[i].no == n;
      assert was[i] in now;
      var j :| 0 <= j < |now| && now[j] == was[i];
    }
  }

  lemma NumbersMore(was: seq<Bookmark>, now: seq<Bookmark>, bk: Bookmark)
    requires bk !in was && forall b :: b in now <==> b == bk || b in was
    ensures Numbers(now) <==> Numbers(was) && bk.no < 10 && (bk.no == 0 || !Uses(was, null, bk.no))
  {
    NumbersAre(was);
    NumbersAre(now);
    if Uses(was, null, bk.no) {
      var i :| 0 <= i < |was| && was[i].no == bk.no;
      assert was[i] in was;
    } else {
      assert forall b :: b in was ==> b.no != bk.no;
    }
  }

  lemma NumbersFewer(was: seq<Bookmark>, now: seq<Bookmark>)
    requires forall b :: b in now ==> b in was
    ensures Numbers(was) ==> Numbers(now)
  {
    NumbersAre(was);
    NumbersAre(now);
  }

  lemma NumbersAre(s: seq<Bookmark>)
    ensures Numbers(s) <==>
      (forall b :: b in s ==> b.no < 10) &&
      (forall b, c :: b in s && c in s && b != c ==> b.no != c.no || b.no == 0)
  {
    assert forall i :: 0 <= i < |s| ==> s[i] in s;
  }

  /** It is looked for with an array of ten; a larger number lies outside. */
  method Unused(all: seq<Bookmark>) returns (no: nat, inside: bool)
    ensures inside <==> forall b :: b in all ==> b.no < 10
    ensures inside ==> LeastFree(all, null, no)
  {
    no, inside := 0, true;
    var used: seq<bool> := seq(10, k => false);
    var i := 0;
    while i < |all|
      invariant i <= |all| && |used| == 10
      invariant forall n :: 0 <= n < 10 ==> (used[n] <==> exists j :: 0 <= j < i && all[j].no == n)
      invariant forall j :: 0 <= j < i ==> all[j].no < 10
    {
      if all[i].no >= 10 {
        assert all[i] in all;
        return 0, false;
      }
      used := used[all[i].no := true];
      i := i + 1;
    }
    assert forall n :: 0 <= n < 10 ==> (used[n] <==> Uses(all, null, n));
    no := 1;
    while no < 10
      invariant 1 <= no <= 10
      invariant forall n :: 0 < n < no ==> used[n]
    {
      if !used[no] {
        return;
      }
      no := no + 1;
    }
    no := 0;
  }

  /** A list without the first occurrence of a bookmark. */
  function Without(s: seq<Bookmark>, b: Bookmark): seq<Bookmark> {
    if s == [] then [] else if s[0] == b then s[1..] else [s[0]] + Without(s[1..], b)
  }

  lemma {:induction false} WithoutIs(s: seq<Bookmark>, b: Bookmark)
    requires Distinct(s)
    ensures Distinct(Without(s, b))
    ensures forall x :: x in Without(s, b) ==> x in s && x != b
    ensures forall x :: x in s && x != b ==> x in Without(s, b)
    ensures SameWay(Without(s, b), s)
  {
    hide Before, Distinct;
    if s == [] {
      NoneStable();
    } else {
      var a, rest := s[0], s[1..];
      assert s == [a] + rest;
      Rest(a, rest);
      if a == b {
        ItsWay(rest);
        AheadSameWay(a, rest, rest);
      } else {
        WithoutIs(rest, b);
        Ahead(a, Without(rest, b));
        AheadSameWay(a, Without(rest, b), rest);
      }
    }
  }

  lemma AheadSameWay(a: Bookmark, t: seq<Bookmark>, s: seq<Bookmark>)
    requires SameWay(t, s) && forall b :: b in t ==> b in s
    ensures SameWay([a] + t, [a] + s) && SameWay(t, [a] + s)
  {
    hide Before;
    var r := [a] + t;
    forall i, j | 0 <= i < j < |t| ensures Before([a] + s, t[i], t[j]) {
      LaterBefore(a, s, t[i], t[j]);
    }
    forall i, j | 0 <= i < j < |r| ensures Before([a] + s, r[i], r[j]) {
      assert r[j] == t[j - 1];
      if i == 0 {
        FirstBefore(a, s, r[j]);
      }
    }
  }

  // ----- a list in the middle of an edit

  /** After an edit that brings bookmarks to new lines and deletes some, a bookmark of the list is not deleted, and
      none behind it is on its line. */
  ghost predicate KeepsAt(s: seq<Bookmark>, line: map<Bookmark, int>, gone: seq<Bookmark>, b: Bookmark) {
    && b in s && b !in gone
    && forall c :: c in s && Before(s, b, c) && c !in gone && b in line && c in line ==> line[c] != line[b]
  }

  /** The bookmarks that are not deleted are in order on their new lines. */
  ghost predicate RestInOrder(s: seq<Bookmark>, line: map<Bookmark, int>, gone: seq<Bookmark>) {
    forall i, j :: 0 <= i < j < |s| && s[i] !in gone && s[j] !in gone && s[i] in line && s[j] in line ==>
      line[s[i]] < line[s[j]]
  }

  ghost predicate OneAtMost(s: seq<Bookmark>) {
    forall i, j :: 0 <= i < j < |s| ==> s[i] == s[j]
  }

  /** Two bookmarks come in the same order in a list and in a part of it. */
  lemma SameOrderIn(s: seq<Bookmark>, t: seq<Bookmark>, a: Bookmark, b: Bookmark)
    requires Distinct(s) && Distinct(t) && SameWay(t, s) && a in t && b in t
    ensures Before(t, a, b) <==> Before(s, a, b)
  {
    if a == b {
      NotSelfAny(s, a);
      NotSelfAny(t, a);
    } else {
      InBoth(s, t, a, b);
      InBoth(s, t, b, a);
      Member(s, t, a, b);
      OneWay(t, a, b);
      OneWay(s, a, b);
    }
  }

  lemma NotSelfAny(s: seq<Bookmark>, a: Bookmark)
    requires Distinct(s)
    ensures !Before(s, a, a)
  {
  }

  lemma InBoth(s: seq<Bookmark>, t: seq<Bookmark>, a: Bookmark, b: Bookmark)
    requires SameWay(t, s)
    ensures Before(t, a, b) ==> Before(s, a, b)
  {
  }

  lemma Member(s: seq<Bookmark>, t: seq<Bookmark>, a: Bookmark, b: Bookmark)
    requires SameWay(t, s) && a in t && b in t && a != b
    ensures a in s && b in s
  {
    var i :| 0 <= i < |t| && t[i] == a;
    var j :| 0 <= j < |t| && t[j] == b;
    if i < j {
      assert Before(s, t[i], t[j]);
    } else {
      assert Before(s, t[j], t[i]);
    }
  }

  /** A repair in the middle of an edit keeps what one at its end would keep. */
  lemma KeepsSame(s: seq<Bookmark>, t: seq<Bookmark>, line: map<Bookmark, int>, gone: seq<Bookmark>)
    requires Distinct(s) && Distinct(t) && SameWay(t, s) && forall b :: b in t ==> b in s
    requires forall b :: b in s && b !in gone ==> b in t && b in line && b.line == line[b] && !b.deleted
    requires forall b :: b in t && b in gone ==> b.deleted
    ensures forall b :: b in s ==> (Keeps(t, b) <==> KeepsAt(s, line, gone, b))
  {
    hide Distinct, Before, SameWay;
    forall b | b in s ensures Keeps(t, b) <==> KeepsAt(s, line, gone, b) {
      if b in t && b !in gone {
        forall c | c in t ensures Before(t, b, c) <==> Before(s, b, c) {
          SameOrderIn(s, t, b, c);
        }
      }
    }
  }

  /** When all deleted bookmarks are off the list, the rest of it is in order as the new lines say. */
  lemma OrderSame(s: seq<Bookmark>, t: seq<Bookmark>, line: map<Bookmark, int>, gone: seq<Bookmark>)
    requires Distinct(s) && Distinct(t) && SameWay(t, s) && forall b :: b in t <==> b in s && b !in gone
    requires forall b :: b in t ==> b in line && b.line == line[b]
    ensures Strict(t) <==> RestInOrder(s, line, gone)
  {
    hide Distinct;
    if Strict(t) {
      forall i, j | 0 <= i < j < |s| && s[i] !in gone && s[j] !in gone ensures line[s[i]] < line[s[j]] {
        assert s[i] in s && s[j] in s;
        Places(s, i, j);
        SameOrderIn(s, t, s[i], s[j]);
        var m, n :| 0 <= m < n < |t| && t[m] == s[i] && t[n] == s[j];
      }
    }
    if RestInOrder(s, line, gone) {
      forall i, j | 0 <= i < j < |t| ensures t[i].line < t[j].line {
        assert t[i] in t && t[j] in t && Before(s, t[i], t[j]);
        var m, n :| 0 <= m < n < |s| && s[m] == t[i] && s[n] == t[j];
      }
    }
  }

  // ----- the bookmarks of a document

  class Bookmarks {
    var list: seq<Bookmark>
    var pending: bool
    var lineCount: nat
    ghost var known: set<Bookmark>

    constructor (lineCount: nat)
      ensures Valid() && Numbered() && list == [] && !pending && known == {} && this.lineCount == lineCount
    {
      list, pending, known := [], false, {};
      this.lineCount := lineCount;
    }

    /** The list is in order, or somebody will put it in order; it has all bookmarks that are not deleted. */
    ghost predicate Valid()
      reads this, known
    {
      Listed() && (pending || Strict(list)) && forall b :: b in known ==> (b.deleted <==> b !in list)
    }

    /** The list has different bookmarks on lines of the text, those that listen to changes. */
    ghost predicate Listed()
      reads this, known
    {
      && Distinct(list)
      && (forall b :: b in list ==> b in known && (b.deleted || 0 <= b.line < lineCount))
      && (forall b :: b in known ==> (b.connected <==> b in list))
    }

    ghost predicate Numbered()
      reads this, list
    {
      Numbers(list)
    }

    /** Puts the list in order: deleted bookmarks go, and of those on one line all but the last. */
    method Update()
      requires Listed()
      modifies this`list, this`pending, known`connected, known`deleted
      ensures Listed() && !pending && Strict(list)
      ensures forall b :: b in list ==> b in old(list)
      ensures forall b :: b in old(list) ==> (b in list <==> old(Keeps(list, b)))
      ensures forall b :: b in known ==> (b.deleted <==> old(b.deleted) || (b in old(list) && b !in list))
      ensures old(Numbered()) ==> Numbered()
    {
      hide Keeps, Distinct, Strict, Numbers;
      pending := false;
      var kept, dead, dup := InOrder(list);
      NumbersFewer(list, kept);
      Disconnect(dead, false);
      Disconnect(dup, true);
      list := kept;
    }

    method Disconnect(s: seq<Bookmark>, deleting: bool)
      requires forall b :: b in s ==> b in known
      modifies s`connected, s`deleted
      ensures forall b {:trigger b.connected} :: b in s ==> !b.connected
      ensures forall b {:trigger b.deleted} :: b in s ==> b.deleted == (deleting || old(b.deleted))
    {
      var i := 0;
      while i < |s|
        invariant i <= |s|
        invariant forall b {:trigger b.connected} :: b in s[..i] ==> !b.connected
        invariant forall b {:trigger b.deleted} :: b in s ==>
          b.deleted == ((deleting && b in s[..i]) || old(b.deleted))
      {
        assert s[..i + 1] == s[..i] + [s[i]];
        s[i].connected := false;
        if deleting {
          s[i].deleted := true;
        }
        i := i + 1;
      }
      assert s[..i] == s;
    }

    /** A look at the list, which is put in order only if that is pending. It can come while the buffer has not
        told all about an edit; then it is right exactly if a repair is pending or the list is right anyway. */
    method ListBookmarks() returns (r: seq<Bookmark>)
      requires Listed()
      modifies this`list, this`pending, known`connected, known`deleted
      ensures Listed() && !pending && r == list && forall b :: b in r ==> b in old(list)
      ensures Right(r) <==> old(pending) || old(Right(list))
      ensures !old(pending) ==> r == old(list) && forall b :: b in known ==> b.deleted == old(b.deleted)
      ensures old(pending) ==> forall b :: b in known ==>
        (b.deleted <==> old(b.deleted) || (b in old(list) && b !in list))
      ensures old(pending) || old(Valid()) ==> forall b :: b in old(list) ==> (b in r <==> old(Keeps(list, b)))
      ensures old(Valid()) ==> Valid() && Right(r)
      ensures old(Numbered()) ==> Numbered()
    {
      hide Distinct, Numbered, Keeps, Strict;
      if pending {
        OnlyLive(list);
        Update();
      } else if Right(list) {
        OneEach(list);
      }
      r := list;
    }

    lemma OnlyLive(s: seq<Bookmark>)
      ensures forall b :: Keeps(s, b) ==> b in s && !b.deleted
    {
    }

    lemma OneEach(s: seq<Bookmark>)
      requires Strict(s) && forall b :: b in s ==> !b.deleted
      ensures forall b :: b in s ==> Keeps(s, b)
    {
    }

    /** The bookmarks on lines first..last; a negative or too large last line stands for the end of the text. */
    method GetInRange(firstLine: int, lastLine: int) returns (range: seq<Bookmark>)
      requires Valid() && 0 <= firstLine
      modifies this`list, this`pending, known`connected, known`deleted
      ensures Valid() && Strict(range) && (old(Numbered()) ==> Numbered())
      ensures var last := if lastLine < 0 || lineCount <= lastLine then lineCount - 1 else lastLine;
        if firstLine > last then range == [] && unchanged(this)
        else !pending && forall b :: b in range <==> b in list && firstLine <= b.line <= last
      ensures forall b :: b in list ==> b in old(list)
      ensures pending || forall b :: b in old(list) ==> (b in list <==> old(Keeps(list, b)))
    {
      hide Distinct, Numbered;
      range := [];
      var last := if lastLine < 0 || lineCount <= lastLine then lineCount - 1 else lastLine;
      if firstLine > last {
        return;
      }
      var all := ListBookmarks();
      range := Range(all, firstLine, last);
    }

    /** Some bookmark on a line. */
    method GetAtLine(line: int) returns (b: Bookmark?)
      requires Valid()
      ensures b == null ==> forall c :: c in list ==> c.line != line
      ensures b != null ==> b in list && b.line == line
    {
      hide Distinct, Strict;
      var i := 0;
      while i < |list|
        invariant i <= |list| && forall j :: 0 <= j < i ==> list[j].line != line
      {
        if list[i].line == line {
          return list[i];
        }
        i := i + 1;
      }
      return null;
    }

    /** The bookmark with a number. */
    method GetBookmark(n: nat) returns (b: Bookmark?)
      requires Valid() && 0 < n < 10
      modifies this`list, this`pending, known`connected, known`deleted
      ensures Valid() && !pending && (old(Numbered()) ==> Numbered())
      ensures forall c :: c in list ==> c in old(list)
      ensures forall c :: c in old(list) ==> (c in list <==> old(Keeps(list, c)))
      ensures b == null ==> forall c :: c in list ==> c.no != n
      ensures b != null ==> b in list && b.no == n
    {
      hide Distinct, Strict, Numbered, Keeps, Right, Listed;
      var all := ListBookmarks();
      var i := 0;
      while i < |all|
        invariant i <= |all| && forall j :: 0 <= j < i ==> all[j].no != n
      {
        if all[i].no == n {
          return all[i];
        }
        i := i + 1;
      }
      return null;
    }

    method GetUnused() returns (no: nat, inside: bool)
      requires Valid()
      modifies this`list, this`pending, known`connected, known`deleted
      ensures Valid() && !pending && (old(Numbered()) ==> Numbered())
      ensures inside <==> forall b :: b in list ==> b.no < 10
      ensures inside ==> LeastFree(list, null, no)
      ensures forall b :: b in list ==> b in old(list)
      ensures forall b :: b in old(list) ==> (b in list <==> old(Keeps(list, b)))
    {
      hide Distinct, Strict, Numbered, Keeps, LeastFree;
      var all := ListBookmarks();
      no, inside := Unused(all);
    }

    /** A new bookmark on a line that has none, with a given number or, for 0, the least free one. */
    method Add(line: int, no: nat) returns (bk: Bookmark, inside: bool)
      requires Valid() && 0 <= line < lineCount && forall b :: b in list ==> b.line != line
      modifies this`list, this`pending, this`known, known`connected, known`deleted
      ensures inside <==> no != 0 || forall b :: b in old(list) && old(Keeps(list, b)) ==> b.no < 10
      ensures inside ==> Valid() && fresh(bk) && known == old(known) + {bk} && bk.line == line
      ensures inside ==> bk in list && forall b :: b in list && b != bk ==> b in old(list)
      ensures inside ==> forall b :: b in old(list) ==> (b in list <==> no != 0 || old(Keeps(list, b)))
      ensures inside ==> if no == 0 then LeastFree(list, bk, bk.no) && !pending else bk.no == no
      ensures old(Numbered()) ==> inside
      ensures old(Numbered()) ==> (Numbered() <==> no == 0 || (no < 10 && !old(Uses(list, null, no))))
    {
      hide Keeps, Distinct, Strict, Numbers, Uses;
      bk := new Bookmark(line);
      var number;
      number, inside := NumberFor(no);
      if !inside {
        return;
      }
      bk.no := number;
      Put(bk);
    }

    /** A new bookmark for a list that is in order. */
    method AddInOrder(line: int) returns (bk: Bookmark)
      requires Valid() && Numbered() && !pending && 0 <= line < lineCount && forall b :: b in list ==> b.line != line
      modifies this`list, this`pending, this`known, known`connected, known`deleted
      ensures Valid() && Numbered() && !pending && bk.line == line && fresh(bk) && known == old(known) + {bk}
      ensures forall b :: b in list <==> b == bk || b in old(list)
    {
      hide Keeps, Distinct, Numbers, Strict, LeastFree, Uses;
      InPlace();
      var inside;
      bk, inside := Add(line, 0);
    }

    /** A list in order loses nothing by being put in order. */
    lemma InPlace()
      requires Valid() && !pending
      ensures forall b :: b in list ==> Keeps(list, b)
    {
      hide Distinct;
      OneEach(list);
    }

    method NumberFor(no: nat) returns (number: nat, inside: bool)
      requires Valid()
      modifies this`list, this`pending, known`connected, known`deleted
      ensures Valid() && (no != 0 ==> unchanged(this) && number == no)
      ensures inside <==> no != 0 || forall b :: b in old(list) && old(Keeps(list, b)) ==> b.no < 10
      ensures inside && no == 0 ==> LeastFree(list, null, number) && !pending
      ensures forall b :: b in list ==> b in old(list)
      ensures forall b :: b in old(list) ==> (b in list <==> no != 0 || old(Keeps(list, b)))
      ensures old(Numbered()) ==> inside && Numbered()
    {
      hide Keeps, Distinct, Strict, Numbers, LeastFree, Uses;
      if no != 0 {
        return no, true;
      }
      NumbersAre(list);
      number, inside := GetUnused();
    }

    method Put(bk: Bookmark)
      requires Valid() && bk !in known && bk.connected && !bk.deleted && 0 <= bk.line < lineCount
      requires forall b :: b in list ==> b.line != bk.line
      modifies this`list, this`known
      ensures Valid() && known == old(known) + {bk}
      ensures forall b :: b in list <==> b == bk || b in old(list)
      ensures forall n :: Uses(list, bk, n) <==> old(Uses(list, null, n))
      ensures Numbered() <==> old(Numbered()) && bk.no < 10 && (bk.no == 0 || !old(Uses(list, null, bk.no)))
    {
      hide Uses, Numbers, Distinct, Strict, Insert, Place;
      ghost var was := list;
      if pending {
        Ahead(bk, list);
        list := [bk] + list;
      } else {
        InsertedStrict(bk, list);
        list := Insert(bk, list);
      }
      known := known + {bk};
      NumbersMore(was, list, bk);
      forall n ensures Uses(list, bk, n) <==> Uses(was, null, n) {
        UsesMore(was, list, bk, n);
      }
    }

    method RemoveBookmark(bookmark: Bookmark)
      requires Valid() && bookmark in known
      modifies this`list, bookmark`connected, bookmark`deleted
      ensures Valid()
      ensures bookmark in old(list) ==> bookmark.deleted
      ensures forall b :: b in list <==> b in old(list) && b != bookmark
      ensures old(Numbered()) ==> Numbered()
    {
      hide Distinct, SameWay, Strict, Numbers;
      if bookmark !in list {
        return;
      }
      bookmark.connected := false;
      bookmark.deleted := true;
      SameLines(list);
      WithoutIs(list, bookmark);
      ghost var was := list;
      list := Without(list, bookmark);
      NumbersFewer(was, list);
      if !pending {
        StrictFewer(was, list);
      }
    }

    twostate lemma SameLines(s: seq<Bookmark>)
      requires forall b :: b in s ==> b.line == old(b.line) && b.no == old(b.no)
      ensures (Strict(s) <==> old(Strict(s))) && (Numbers(s) <==> old(Numbers(s)))
    {
    }

    /** Takes the bookmark off a line, or puts one there. */
    method Toggle(line: int)
      requires Valid() && 0 <= line < lineCount && Numbered()
      modifies this`list, this`pending, this`known, known`connected, known`deleted
      ensures Valid() && Numbered()
      ensures (exists b :: b in old(list) && old(b.line) == line) ==>
        exists b :: b in old(list) && old(b.line) == line && forall c :: c in list <==> c in old(list) && c != b
      ensures (forall b :: b in old(list) ==> old(b.line) != line) ==>
        exists b :: b in list && fresh(b) && b.line == line && LeastFree(list, b, b.no) &&
          (forall c :: c in list && c != b ==> c in old(list)) &&
          forall c :: c in old(list) ==> (c in list <==> old(Keeps(list, c)))
    {
      hide Distinct, Strict, Numbers, Before, Uses, LeastFree;
      assert forall b :: b in list ==> b.no < 10 by {
        NumbersAre(list);
      }
      var bk := GetAtLine(line);
      if bk != null {
        RemoveBookmark(bk);
      } else {
        var b, inside := Add(line, 0);
      }
    }

    method DeleteAll()
      requires Valid()
      modifies this`list, known`connected, known`deleted
      ensures Valid() && list == [] && forall b :: b in known ==> b.deleted
    {
      hide Distinct, Strict;
      var bookmarks := list;
      list := [];
      Disconnect(bookmarks, true);
      NoneStable();
      NoneStrict();
    }

    lemma NoneStrict()
      ensures Strict([])
    {
    }

    /** The buffer says that a mark was moved; the list may be out of order now. */
    method MarkMoved(mark: Bookmark) returns (changed: bool)
      modifies this`pending
      ensures changed == (mark.connected && !old(pending)) && pending == (old(pending) || mark.connected)
    {
      changed := mark.connected && !pending;
      if changed {
        pending := true;
      }
    }

    /** The buffer says that a mark was deleted. */
    method MarkDeleted(mark: Bookmark) returns (changed: bool)
      requires Listed() && mark in known && mark.deleted
      modifies this`list, mark`connected
      ensures Listed() && list == Without(old(list), mark) && changed == (mark in old(list))
      ensures forall b :: b in list <==> b in old(list) && b != mark
      ensures SameWay(list, old(list))
    {
      hide Distinct, SameWay;
      WithoutIs(list, mark);
      changed := mark.connected && mark in list;
      if changed {
        mark.connected := false;
        list := Without(list, mark);
      } else {
        WithoutNone(list, mark);
        ItsWay(list);
      }
    }

    lemma {:induction false} WithoutNone(s: seq<Bookmark>, b: Bookmark)
      requires b !in s
      ensures Without(s, b) == s
    {
      if s != [] {
        WithoutNone(s[1..], b);
      }
    }

    /** What the buffer does itself. */
    method Shift(newLine: map<Bookmark, int>, deleted: seq<Bookmark>, newCount: nat)
      requires Listed() && forall b :: b in deleted ==> b in list
      requires forall b :: b in list && b !in deleted ==> b in newLine && 0 <= newLine[b] < newCount
      modifies this`lineCount, known`line, known`deleted
      ensures Listed() && lineCount == newCount
      ensures forall b {:trigger b.line} :: b in list && b !in deleted ==> b.line == newLine[b]
      ensures forall b {:trigger b.deleted} :: b in known ==> b.deleted == (old(b.deleted) || b in deleted)
    {
      hide Distinct;
      forall b | b in list && b !in deleted {
        b.line := newLine[b];
      }
      forall b | b in deleted {
        b.deleted := true;
      }
      lineCount := newCount;
    }

    twostate lemma SameNumbers(s: seq<Bookmark>)
      requires forall b :: b in s ==> b.no == old(b.no)
      ensures Numbers(s) <==> old(Numbers(s))
    {
    }

    /** How things are while the buffer tells about an edit, after the first reports about deleted bookmarks: those
        are off the list. If the list has been repaired in between, the other ones and those that the repair has
        dropped are, too. */
    ghost predicate InEdit(was: seq<Bookmark>, newLine: map<Bookmark, int>, deleted: seq<Bookmark>, told: nat,
                           repaired: bool)
      reads this, known
    {
      && Listed() && Distinct(was) && told <= |deleted|
      && (forall b :: b in was ==> b in known && (b !in deleted ==> b in newLine && b.line == newLine[b]))
      && (forall b :: b in deleted ==> b in was)
      && (forall b :: b in known ==> (b.deleted <==> b !in list || b in deleted))
      && (forall b :: b in list ==> b in was)
      && (if repaired then Right(list) && forall b :: b in was ==> (b in list <==> KeepsAt(was, newLine, deleted, b))
          else SameWay(list, was) && forall b :: b in was ==> (b in list <==> b !in deleted[..told]))
    }

    /** A window that shows the document looks at the list when it has changed. */
    method Look(ghost was: seq<Bookmark>, ghost newLine: map<Bookmark, int>, ghost deleted: seq<Bookmark>,
                ghost told: nat, ghost repaired: bool) returns (r: seq<Bookmark>)
      requires InEdit(was, newLine, deleted, told, repaired)
      modifies this`list, this`pending, known`connected, known`deleted
      ensures !pending && r == list
      ensures old(pending) ==> InEdit(was, newLine, deleted, told, true)
      ensures !old(pending) ==> InEdit(was, newLine, deleted, told, repaired) && list == old(list)
      ensures old(pending) ==> Right(r)
      ensures old(Numbered()) ==> Numbered()
    {
      hide Distinct, Numbers, SameWay, KeepsAt, Keeps, Strict, Before;
      OnlyLive(list);
      if repaired {
        OneEach(list);
      } else {
        KeepsSame(was, list, newLine, deleted);
      }
      assert forall b :: b in was ==> (Keeps(list, b) <==> KeepsAt(was, newLine, deleted, b));
      r := ListBookmarks();
    }

    /** The buffer tells about the next deleted bookmark. */
    method TellNext(mark: Bookmark, ghost was: seq<Bookmark>, ghost newLine: map<Bookmark, int>,
                    ghost deleted: seq<Bookmark>, ghost told: nat, ghost repaired: bool) returns (changed: bool)
      requires told < |deleted| && mark == deleted[told] && InEdit(was, newLine, deleted, told, repaired)
      modifies this`list, mark`connected
      ensures InEdit(was, newLine, deleted, told + 1, repaired)
      ensures changed <==> !repaired && mark !in deleted[..told]
      ensures old(Numbered()) ==> Numbered()
    {
      hide Distinct, SameWay, Before, Strict, Numbers;
      ghost var before := list;
      assert deleted[..told + 1] == deleted[..told] + [mark];
      if repaired {
        WithoutNone(list, mark);
      }
      changed := MarkDeleted(mark);
      SameNumbers(before);
      NumbersFewer(before, list);
      if !repaired {
        SameWays(list, before, was);
      }
    }

    lemma Marks(was: seq<Bookmark>, newLine: map<Bookmark, int>, deleted: seq<Bookmark>, told: nat, repaired: bool)
      requires InEdit(was, newLine, deleted, told, repaired)
      ensures forall b :: b in was || b in deleted ==> b in known
    {
    }

    /** The first look, when nothing has repaired the list before it. */
    lemma FirstLook(was: seq<Bookmark>, newLine: map<Bookmark, int>, deleted: seq<Bookmark>)
      requires deleted != [] && InEdit(was, newLine, deleted, 1, false)
      ensures Right(list) <==> OneAtMost(deleted) && RestInOrder(was, newLine, deleted)
    {
      hide Distinct, SameWay, Strict, RestInOrder;
      assert deleted[..1] == [deleted[0]];
      if OneAtMost(deleted) {
        assert forall b :: b in deleted ==> b == deleted[0];
        OrderSame(was, list, newLine, deleted);
      } else {
        var i, j :| 0 <= i < j < |deleted| && deleted[i] != deleted[j];
        var k := if deleted[i] == deleted[0] then j else i;
        assert deleted[k] in deleted && deleted[k] in list;
      }
    }

    /** The buffer tells which bookmarks were deleted; a window may look after every report that changes the list. */
    method TellDeleted(deleted: seq<Bookmark>, watched: bool, ghost was: seq<Bookmark>,
                       ghost newLine: map<Bookmark, int>) returns (ghost right: bool, ghost repaired: bool)
      requires InEdit(was, newLine, deleted, 0, false)
      modifies this`list, this`pending, known`connected, known`deleted
      ensures InEdit(was, newLine, deleted, |deleted|, repaired)
      ensures repaired <==> watched && old(pending) && deleted != []
      ensures pending <==> old(pending) && !repaired
      ensures right <==>
        !watched || old(pending) || deleted == [] || (OneAtMost(deleted) && RestInOrder(was, newLine, deleted))
      ensures old(Numbered()) ==> Numbered()
    {
      hide Numbers, RestInOrder, Right, InEdit;
      right, repaired := true, false;
      ghost var fine := OneAtMost(deleted) && RestInOrder(was, newLine, deleted);
      var i := 0;
      while i < |deleted|
        invariant i <= |deleted| && InEdit(was, newLine, deleted, i, repaired)
        invariant repaired <==> watched && old(pending) && i > 0
        invariant pending <==> old(pending) && !repaired
        invariant right <==> !watched || old(pending) || i == 0 || fine
        invariant old(Numbered()) ==> Numbered()
      {
        assert deleted[i] in known by {
          Marks(was, newLine, deleted, i, repaired);
        }
        var changed := TellNext(deleted[i], was, newLine, deleted, i, repaired);
        if watched && changed {
          assert i > 0 ==> deleted[..i][0] == deleted[0] != deleted[i];
          ghost var repairs := pending;
          var r := Look(was, newLine, deleted, i + 1, repaired);
          right, repaired := right && Right(r), repaired || repairs;
          if i == 0 && !repaired {
            FirstLook(was, newLine, deleted);
          }
        }
        i := i + 1;
      }
    }

    /** The buffer tells which bookmarks were moved; a window may look after every report that asks for a repair. */
    method TellMoved(moved: seq<Bookmark>, watched: bool, ghost was: seq<Bookmark>, ghost newLine: map<Bookmark, int>,
                     ghost deleted: seq<Bookmark>, ghost before: bool) returns (ghost right: bool, ghost repaired: bool)
      requires InEdit(was, newLine, deleted, |deleted|, before) && (before ==> watched)
      requires forall b :: b in moved ==> b in was
      modifies this`list, this`pending, known`connected, known`deleted
      ensures InEdit(was, newLine, deleted, |deleted|, repaired) && right
      ensures repaired <==> before || (watched && !old(pending) && exists b :: b in moved && b !in deleted)
      ensures pending <==> old(pending) || (!watched && exists b :: b in moved && b !in deleted)
      ensures old(Numbered()) ==> Numbered()
    {
      hide Numbers, Right, KeepsAt, SameWay, Distinct;
      right, repaired := true, before;
      var i := 0;
      while i < |moved|
        invariant i <= |moved| && InEdit(was, newLine, deleted, |deleted|, repaired) && right
        invariant repaired <==> before || (watched && !old(pending) && exists b :: b in moved[..i] && b !in deleted)
        invariant pending <==> old(pending) || (!watched && exists b :: b in moved[..i] && b !in deleted)
        invariant old(Numbered()) ==> Numbered()
      {
        assert moved[..i + 1] == moved[..i] + [moved[i]];
        if !moved[i].deleted {
          var changed := MarkMoved(moved[i]);
          if watched && changed {
            var r := Look(was, newLine, deleted, |deleted|, repaired);
            right, repaired := right && Right(r), true;
          }
        }
        i := i + 1;
      }
      assert moved[..i] == moved;
    }

    /** An edit of the text: marks come to new lines, and the buffer says one by one which were deleted and which
        were moved. All others stay in order. While a window shows the document, it looks at the list each time
        that says that it has changed. */
    method Edit(newLine: map<Bookmark, int>, deleted: seq<Bookmark>, moved: seq<Bookmark>, newCount: nat,
                watched: bool) returns (ghost right: bool)
      requires Valid() && (forall b :: b in deleted ==> b in list) && (forall b :: b in moved ==> b in list)
      requires forall b :: b in list && b !in deleted ==> b in newLine && 0 <= newLine[b] < newCount
      requires forall a, b :: a in list && b in list && a !in deleted && b !in deleted && a !in moved && b !in moved ==>
        a.line < b.line ==> newLine[a] < newLine[b]
      modifies this`list, this`pending, this`lineCount, known`line, known`deleted, known`connected
      ensures Valid() && lineCount == newCount
      ensures right <==>
        !watched || old(pending) || deleted == [] || (OneAtMost(deleted) && RestInOrder(old(list), newLine, deleted))
      ensures
        var repaired := watched && if old(pending) then deleted != [] else exists b :: b in moved && b !in deleted;
        forall b :: b in old(list) ==>
          (b in list <==> if repaired then KeepsAt(old(list), newLine, deleted, b) else b !in deleted)
      ensures forall b :: b in list ==> b in old(list) && b.line == newLine[b]
      ensures pending <==>
        if watched then old(pending) && deleted == [] else old(pending) || exists b :: b in moved && b !in deleted
      ensures old(Numbered()) ==> Numbered()
    {
      hide Distinct, SameWay, Numbers, Strict, KeepsAt, RestInOrder;
      ghost var was := list;
      Shift(newLine, deleted, newCount);
      SameNumbers(was);
      ItsWay(was);
      ghost var rightDeleted, rightMoved, repaired;
      rightDeleted, repaired := TellDeleted(deleted, watched, was, newLine);
      rightMoved, repaired := TellMoved(moved, watched, was, newLine, deleted, repaired);
      right := rightDeleted && rightMoved;
      assert deleted[..|deleted|] == deleted;
      KeptLive(was, newLine, deleted);
      if !repaired && !pending {
        StillInOrder(was);
      }
    }

    /** An edit up to the look after the first report, as it is when no repair is pending. */
    method FirstReport(newLine: map<Bookmark, int>, deleted: seq<Bookmark>, newCount: nat)
        returns (r: seq<Bookmark>)
      requires Valid() && !pending && deleted != [] && forall b :: b in deleted ==> b in list
      requires forall b :: b in list && b !in deleted ==> b in newLine && 0 <= newLine[b] < newCount
      modifies this`list, this`pending, this`lineCount, known`line, known`deleted, known`connected
      ensures forall b :: b in r <==> b in old(list) && b != deleted[0]
      ensures forall b :: b in r ==> if b in deleted then b.deleted else b.line == newLine[b]
    {
      hide Distinct, Strict, Numbers, Keeps, SameWay, Right;
      Shift(newLine, deleted, newCount);
      var changed := MarkDeleted(deleted[0]);
      assert changed;
      r := ListBookmarks();
    }

    lemma KeptLive(s: seq<Bookmark>, line: map<Bookmark, int>, gone: seq<Bookmark>)
      ensures forall b :: KeepsAt(s, line, gone, b) ==> b in s && b !in gone
    {
    }

    twostate lemma StillInOrder(was: seq<Bookmark>)
      requires old(Strict(was)) && SameWay(list, was)
      requires forall x, y :: x in list && y in list && x in was && y in was && old(x.line) < old(y.line) ==>
        x.line < y.line
      ensures Strict(list)
    {
      forall i, j | 0 <= i < j < |list| ensures list[i].line < list[j].line {
        assert Before(was, list[i], list[j]);
        var m, n :| 0 <= m < n < |was| && was[m] == list[i] && was[n] == list[j];
        assert old(was[m].line) < old(was[n].line);
        assert was[m] in list && was[n] in list;
      }
    }
  }

  /** Two bookmarks are deleted at once. The look after the report about the first one finds the other. */
  method DeletedSeen() returns (r: seq<Bookmark>)
    ensures exists b :: b in r && b.deleted
  {
    hide Keeps, LeastFree, Uses, Distinct, Strict, Numbers;
    var s := new Bookmarks(2);
    var first := s.AddInOrder(0);
    var second := s.AddInOrder(1);
    r := s.FirstReport(map[], [first, second], 1);
    assert second in r && second.deleted;
  }

  /** One bookmark is deleted, and one behind it comes to the line of one before it. The look after the report about
      the deleted one finds both. */
  method LineSeenTwice() returns (r: seq<Bookmark>)
    ensures exists a, b :: a in r && b in r && a != b && a.line == b.line
  {
    hide Keeps, LeastFree, Uses, Distinct, Strict, Numbers;
    var s := new Bookmarks(3);
    var first := s.AddInOrder(0);
    var second := s.AddInOrder(1);
    var third := s.AddInOrder(2);
    r := s.FirstReport(map[first := 0, third := 0], [second], 1);
    assert first in r && third in r && first.line == third.line;
  }
}
