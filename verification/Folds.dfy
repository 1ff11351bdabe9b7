/** The tree of folds of a text buffer (src/mooedit/moofold.cpp): an ordered forest of line
    ranges held in parent/prev/next/children pointers, and an "invisible" tag on the lines that
    collapsed folds hide. */
module Folds {

  /** A line range. The two line marks are integers here: nothing in this file moves a mark. */
  class Fold {
    var parent: Fold?
    var prev: Fold?
    var next: Fold?
    var children: Fold?
    var nChildren: int
    const start: int
    const end: int
    var collapsed: bool
    var deleted: bool

    constructor (first: int, last: int)
      ensures start == first && end == last
      ensures parent == null && prev == null && next == null && children == null && nChildren == 0
      ensures !collapsed && !deleted
    {
      start, end := first, last;
      parent, prev, next, children, nChildren := null, null, null, null, 0;
      collapsed, deleted := false, false;
    }

    /** The lines a collapsed fold hides: all but its first one. */
    predicate Covers(line: int) {
      start < line <= end
    }
  }

  ghost predicate Inside(f: Fold, g: Fold) {
    g.start < f.start && f.end <= g.end
  }

  ghost predicate Apart(f: Fold, g: Fold) {
    f.end < g.start || g.end < f.start
  }

  /** Two ranges of one tree are apart or one is inside the other. */
  ghost predicate Nested(f: Fold, g: Fold) {
    || f == g
    || f.end < g.start || g.end < f.start
    || (g.start < f.start && f.end <= g.end) || (f.start < g.start && g.end <= f.end)
  }

  /** A range strictly inside p; a missing fold stands for the whole buffer. */
  ghost predicate Encloses(p: Fold?, first: int, last: int) {
    p == null || (p.start < first && last <= p.end)
  }

  /** The range can neither be beside f, nor be put inside f, nor wrap f. */
  predicate Crosses(f: Fold, first: int, last: int) {
    !(f.end < first || last < f.start || (f.start < first && last <= f.end) || (first < f.start && f.end <= last))
  }

  /** Some fold of the set hides the line when collapsed. */
  ghost predicate Covered(s: set<Fold>, line: int) {
    exists f :: f in s && f.Covers(line)
  }

  datatype Slot = Slot(from: int, to: int, p: Fold?, prev: Fold?, next: Fold?, first: Fold?, last: Fold?)

  /** All that the folds of a tree point to, and their counters. */
  datatype Pointers = Pointers(folds: Fold?, nFolds: int, parent: map<Fold, Fold?>, prev: map<Fold, Fold?>,
                               next: map<Fold, Fold?>, children: map<Fold, Fold?>, nChildren: map<Fold, int>)
  {
    ghost predicate Has(f: Fold?) {
      f != null && f in parent && f in prev && f in next && f in children && f in nChildren
    }
  }

  /** h is `before` with the lines of the set shown, as far as the line `upto`. */
  ghost predicate Uncovered(h: seq<bool>, before: seq<bool>, shows: iset<int>, upto: int) {
    |h| == |before| && forall l :: 0 <= l < |h| ==> h[l] == (before[l] && !(l <= upto && l in shows))
  }

  /** h1 is h with the lines lo..hi shown; without the tag there is nothing to show. */
  ghost predicate Untagged(h: seq<bool>, h1: seq<bool>, lo: int, hi: int, tag: bool) {
    && |h1| == |h| && (!tag ==> forall l :: 0 <= l < |h| ==> !h[l])
    && forall l :: 0 <= l < |h| ==> h1[l] == if tag && lo <= l <= hi then false else h[l]
  }

  lemma ShownUpTo(before: seq<bool>, h: seq<bool>, shows: iset<int>, line: int, tag: bool)
    requires Untagged(before, h, line, line, tag) && line in shows && forall l :: l in shows ==> line <= l
    ensures Uncovered(h, before, shows, line)
  {
  }

  lemma UncoverKid(before: seq<bool>, h: seq<bool>, h1: seq<bool>, h2: seq<bool>, shows: iset<int>, kidShows: iset<int>,
                   done: int, kidStart: int, kidEnd: int, tag: bool)
    requires Uncovered(h, before, shows, done) && Untagged(h, h1, done + 1, kidStart, tag)
    requires |h2| == |h1| && forall l :: 0 <= l < |h1| ==> h2[l] == (h1[l] && l !in kidShows)
    requires done < kidStart <= kidEnd && forall l :: done < l <= kidEnd ==>
      (l in shows <==> l < kidStart || l in kidShows)
    requires kidStart in kidShows && forall l :: l in kidShows ==> kidStart <= l <= kidEnd
    ensures Uncovered(h2, before, shows, kidEnd)
  {
  }

  lemma UncoverTail(before: seq<bool>, h: seq<bool>, h1: seq<bool>, shows: iset<int>, done: int, end: int, tag: bool)
    requires Uncovered(h, before, shows, done) && done <= end
    requires if done < end then Untagged(h, h1, done + 1, end, tag) else h1 == h
    requires (forall l :: done < l <= end ==> l in shows) && forall l :: l in shows ==> l <= end
    ensures |h1| == |before| && forall l :: 0 <= l < |h1| ==> h1[l] == (before[l] && l !in shows)
  {
  }

  class FoldTree {
    const lineCount: nat
    var folds: Fold?
    var nFolds: int
    /** The invisible tag, one bit a line; it has no effect until the tag is in the tag table. */
    var hidden: seq<bool>
    var tagInstalled: bool
    ghost var nodes: set<Fold>

    constructor (lines: nat)
      ensures Valid() && Exact() && nodes == {} && lineCount == lines && !tagInstalled
    {
      lineCount := lines;
      folds, nFolds, nodes := null, 0, {};
      hidden, tagInstalled := seq(lines, _ => false), false;
    }

    ghost function Head(p: Fold?): Fold?
      reads this`folds, {p}`children
    {
      if p == null then folds else p.children
    }

    ghost function Count(p: Fold?): int
      reads this`nFolds, {p}`nChildren
    {
      if p == null then nFolds else p.nChildren
    }

    ghost function Kids(p: Fold?): set<Fold>
      reads this`nodes, nodes`parent
    {
      set f | f in nodes && f.parent == p
    }

    /** Every range lies in the buffer; two ranges are apart or one is inside the other. */
    ghost predicate Laminar()
      reads this`nodes
    {
      && (forall f :: f in nodes ==> 0 <= f.start < f.end < lineCount)
      && (forall f, g {:trigger Nested(f, g)} :: f in nodes && g in nodes ==> Nested(f, g))
    }

    /** parent is the smallest fold around a fold. */
    ghost predicate ParentsOk()
      reads this`nodes, nodes`parent, nodes`deleted
    {
      && (forall f :: f in nodes ==> !f.deleted)
      && (forall f {:trigger f.parent} :: f in nodes && f.parent != null ==> f.parent in nodes && Inside(f, f.parent))
      && (forall f, g {:trigger Inside(f, g)} :: f in nodes && g in nodes && Inside(f, g) ==>
            f.parent != null && (f.parent == g || (g.start < f.parent.start && f.parent.end <= g.end)))
    }

    /** next and prev are the successor and the predecessor among the folds of one parent. */
    ghost predicate SiblingsOk()
      reads this`nodes, nodes`parent, nodes`next, nodes`prev
    {
      && (forall f {:trigger f.next} :: f in nodes && f.next != null ==>
        f.next in nodes && f.next.parent == f.parent && f.end < f.next.start)
      && (forall f {:trigger f.prev} :: f in nodes && f.prev != null ==>
        f.prev in nodes && f.prev.parent == f.parent && f.prev.end < f.start)
      && (forall f, g {:trigger f.next, g.parent} ::
        f in nodes && g in nodes && f.parent == g.parent && f.start < g.start ==>
            f.next != null && f.next.start <= g.start)
      && (forall f, g {:trigger f.parent, g.prev} ::
        f in nodes && g in nodes && f.parent == g.parent && f.start < g.start ==>
            g.prev != null && f.start <= g.prev.start)
    }

    /** The list of the folds of p starts at its first fold and has the recorded length. */
    ghost predicate ListOk(p: Fold?)
      reads this`folds, this`nFolds, this`nodes, nodes`parent, {p}`children, {p}`nChildren
    {
      && (Head(p) != null ==> Head(p) in nodes && Head(p).parent == p)
      && (forall f {:trigger f.parent} :: f in nodes && f.parent == p ==> Head(p) != null && Head(p).start <= f.start)
      && Count(p) == |Kids(p)|
    }

    /** (Naming the conjunction keeps it in one piece for the verifier; likewise elsewhere.) */
    ghost predicate Links()
      reads this`folds, this`nFolds, this`nodes, nodes`parent, nodes`next, nodes`prev,
            nodes`children, nodes`nChildren, nodes`deleted
    {
      var wellFormed :=
        Laminar() && ParentsOk() && SiblingsOk() && ListOk(null) &&
          (forall p {:trigger ListOk(p)} :: p in nodes ==> ListOk(p));
      wellFormed
    }

    ghost predicate Valid()
      reads this`folds, this`nFolds, this`nodes, this`hidden, this`tagInstalled, nodes`parent, nodes`next, nodes`prev,
            nodes`children, nodes`nChildren, nodes`deleted
    {
      Links() && TagOk()
    }

    ghost predicate TagOk()
      reads this`hidden, this`tagInstalled
    {
      |hidden| == lineCount && (!tagInstalled ==> forall l :: 0 <= l < |hidden| ==> !hidden[l])
    }

    ghost function Collapsed(): set<Fold>
      reads this`nodes, nodes`collapsed
    {
      set f | f in nodes && f.collapsed
    }

    /** A line is hidden exactly when some collapsed fold hides it. */
    ghost predicate Exact()
      reads this`nodes, nodes`collapsed, this`hidden
    {
      forall l :: 0 <= l < |hidden| ==> (hidden[l] <==> Covered(Collapsed(), l))
    }

    /** Whatever line is hidden, some collapsed fold hides it. Unlike exactness, every operation keeps this. */
    ghost predicate Justified()
      reads this`nodes, nodes`collapsed, this`hidden
    {
      forall l :: 0 <= l < |hidden| && hidden[l] ==> Covered(Collapsed(), l)
    }

    /** Puts the invisible tag into the tag table. What folds collapsed before then should hide stays in sight. */
    method InstallTag()
      requires Valid()
      modifies this`tagInstalled
      ensures Valid() && tagInstalled && (Exact() <==> old(Exact())) && (Justified() <==> old(Justified()))
      ensures !old(tagInstalled) ==> (Exact() <==> Collapsed() == {})
    {
      if !tagInstalled {
        if Collapsed() != {} {
          var f :| f in Collapsed();
          Around(f);
          assert f.Covers(f.end) && !hidden[f.end];
        }
        tagInstalled := true;
      }
    }

    // ----- geometry of a well-formed tree

    /** Whatever lies inside p lies inside one of the folds of p. */
    lemma TopKid(p: Fold?, g: Fold) returns (k: Fold)
      requires Links() && g in nodes && (p != null ==> p in nodes && Inside(g, p))
      ensures k in nodes && k.parent == p && (k == g || Inside(g, k))
      decreases g.start
    {
      if g.parent == p {
        k := g;
      } else {
        k := TopKid(p, g.parent);
      }
    }

    lemma SiblingsApart(f: Fold, g: Fold)
      requires Links() && f in nodes && g in nodes && f != g && f.parent == g.parent
      ensures Apart(f, g)
    {
      assert Nested(f, g);
      assert Apart(f, g) || Inside(f, g) || Inside(g, f);
    }

    /** What the pointers of one fold say: prev and next undo each other, children is a first fold. */
    lemma Around(f: Fold)
      requires Links() && f in nodes
      ensures 0 <= f.start < f.end < lineCount && !f.deleted
      ensures f.parent != null ==> f.parent in nodes && Inside(f, f.parent)
      ensures f.prev != null ==>
        f.prev in nodes && f.prev.parent == f.parent && f.prev.end < f.start && f.prev.next == f
      ensures f.next != null ==>
        f.next in nodes && f.next.parent == f.parent && f.end < f.next.start && f.next.prev == f
      ensures f.children != null ==> f.children in nodes && f.children.parent == f && f.children.prev == null
    {
      assert ListOk(f);
      if f.prev != null {
        assert Nested(f.prev.next, f);
      }
      if f.next != null {
        assert Nested(f.next.prev, f);
      }
    }

    lemma OneStart(f: Fold)
      requires Links() && f in nodes
      ensures forall g :: g in nodes && g.start == f.start ==> g == f
      ensures forall g {:trigger g.parent} :: g in nodes && g.parent == f.parent && f.start < g.start ==>
        f.next != null && f.next.start <= g.start
    {
      forall g | g in nodes && g.start == f.start ensures g == f {
        assert Nested(f, g);
      }
    }

    /** The range goes between two neighbouring folds of one list. */
    ghost predicate MiddleGap(first: int, last: int)
      reads this`nodes, nodes`next
    {
      exists f :: f in nodes && f.next != null && f.end < first && last < f.next.start
    }

    /** The range starts before a fold of the innermost list and reaches that fold's next one. */
    ghost predicate ReachesTwo(first: int, last: int)
      reads this`nodes, nodes`next, nodes`parent
    {
      exists f :: f in nodes && f.next != null && Encloses(f.parent, first, last) && first < f.start &&
        f.next.start <= last
    }

    ghost predicate Beside(f: Fold, first: int, last: int) {
      f.end < first || last < f.start
    }

    ghost predicate Within(f: Fold, first: int, last: int) {
      first < f.start && f.end <= last
    }

    /** If no fold of the list of p crosses the range or surrounds it, p is the innermost fold around it. */
    lemma Innermost(p: Fold?, first: int, last: int, g: Fold)
      requires Links() && (p != null ==> p in nodes) && Encloses(p, first, last) && first < last
      requires forall k :: k in nodes && k.parent == p ==> Beside(k, first, last) || Within(k, first, last)
      requires g in nodes
      ensures Beside(g, first, last) || Within(g, first, last) ||
        (Encloses(g, first, last) && p != null && (g == p || Inside(p, g)))
      ensures Within(g, first, last) ==> g.parent == p || (g.parent != null && Within(g.parent, first, last))
    {
      assert p != null ==> Nested(g, p);
      if p == null || Inside(g, p) {
        var k := TopKid(p, g);
        assert k != g ==> Inside(g, k);
      }
    }

    lemma GapParent(p: Fold?, first: int, last: int, a: Fold)
      requires Links() && (p != null ==> p in nodes) && Encloses(p, first, last) && first < last
      requires forall k :: k in nodes && k.parent == p ==> Beside(k, first, last) || Within(k, first, last)
      requires a in nodes && a.next != null && a.end < first && last < a.next.start
      ensures a.parent == p
    {
      var q := a.parent;
      if q != p {
        if q != null {
          Innermost(p, first, last, q);
        }
        var k := TopKid(q, p);
        if a != k {
          SiblingsApart(a, k);
        }
      }
    }

    lemma ReachParent(p: Fold?, first: int, last: int, a: Fold)
      requires Links() && (p != null ==> p in nodes) && Encloses(p, first, last) && first < last
      requires forall k :: k in nodes && k.parent == p ==> Beside(k, first, last) || Within(k, first, last)
      requires a in nodes && Encloses(a.parent, first, last) && first < a.start <= last
      ensures a.parent == p
    {
      var q := a.parent;
      if q != p {
        if q != null {
          Innermost(p, first, last, q);
        }
        var k := TopKid(q, p);
        if a != k {
          SiblingsApart(a, k);
        }
      }
    }

    // ----- the invisible tag

    /** Puts the tag on the lines first..last or takes it off them. */
    method TagLines(first: int, last: int, on: bool)
      requires TagOk() && 0 <= first && last < lineCount
      modifies this`hidden
      ensures TagOk()
      ensures forall l :: 0 <= l < lineCount ==>
        hidden[l] == if tagInstalled && first <= l <= last then on else old(hidden)[l]
    {
      if tagInstalled {
        var h := hidden;
        hidden := seq(lineCount, l requires 0 <= l < |h| => if first <= l <= last then on else h[l]);
      }
    }

    method Collapse(fold: Fold)
      requires Valid() && fold in nodes
      modifies fold`collapsed, this`hidden
      ensures Valid() && fold.collapsed && Collapsed() == old(Collapsed()) + {fold}
      ensures forall l :: 0 <= l < lineCount ==>
        hidden[l] == (old(hidden)[l] || (tagInstalled && !old(fold.collapsed) && fold.start < l <= fold.end))
      ensures tagInstalled && old(Exact()) ==> Exact()
      ensures old(Justified()) ==> Justified()
    {
      assert fold.collapsed ==> fold in Collapsed();
      if fold.collapsed {
        return;
      }
      fold.collapsed := true;
      assert Collapsed() == old(Collapsed()) + {fold};
      TagLines(fold.start + 1, fold.end, true);
    }

    /** A collapsed fold, f itself or one inside f, hides the line. */
    ghost predicate CoveredWithin(f: Fold, line: int)
      reads this`nodes, nodes`collapsed
    {
      exists g :: g in nodes && g.collapsed && (g == f || Inside(g, f)) && g.Covers(line)
    }

    /** The lines that expanding f shows: all but those that a fold within f still hides. */
    ghost predicate Shows(f: Fold, line: int)
      reads this`nodes, nodes`collapsed
    {
      f.start <= line <= f.end && !CoveredWithin(f, line)
    }

    lemma KidCovers(f: Fold, c: Fold, line: int)
      requires Links() && f in nodes && c in nodes && c.parent == f && !f.collapsed && c.start <= line <= c.end
      ensures CoveredWithin(f, line) <==> CoveredWithin(c, line)
    {
      assert Inside(c, f);
      if CoveredWithin(f, line) {
        var g :| g in nodes && g.collapsed && (g == f || Inside(g, f)) && g.Covers(line);
        var k := TopKid(f, g);
        if k != c {
          SiblingsApart(k, c);
        }
      }
    }

    /** Between the folds of f, before the first one and after the last one nothing within f hides a line. */
    lemma GapNotCovered(f: Fold, before: Fold?, after: Fold?, line: int)
      requires Links() && f in nodes && !f.collapsed
      requires before != null ==> before in nodes && before.parent == f && before.next == after && before.end < line
      requires after != null ==> after in nodes && after.parent == f && after.prev == before && line <= after.start
      requires before == null && after == null ==> f.children == null
      ensures !CoveredWithin(f, line)
    {
      if CoveredWithin(f, line) {
        var g :| g in nodes && g.collapsed && (g == f || Inside(g, f)) && g.Covers(line);
        var k := TopKid(f, g);
        assert ListOk(f);
        if before != null && before != k {
          SiblingsApart(before, k);
        }
      }
    }

    lemma ShowsBounds(f: Fold)
      requires Links() && f in nodes
      ensures forall l :: Shows(f, l) ==> f.start <= l <= f.end
      ensures Shows(f, f.start)
      ensures f.collapsed ==> forall l :: Shows(f, l) ==> l == f.start
    {
      forall l | Shows(f, l) && f.collapsed ensures l == f.start {
        assert f.Covers(l) ==> CoveredWithin(f, l);
      }
    }

    lemma KidShows(f: Fold, c: Fold, shows: iset<int>, kidShows: iset<int>)
      requires Links() && f in nodes && c in nodes && c.parent == f && !f.collapsed
      requires shows == (iset l | Shows(f, l)) && kidShows == (iset l | Shows(c, l))
      ensures forall l :: (c.prev != null ==> c.prev.end < l) && f.start < l <= c.end ==>
        (l in shows <==> l < c.start || l in kidShows)
      ensures c.start in kidShows && forall l :: l in kidShows ==> c.start <= l <= c.end
    {
      forall l | (c.prev != null ==> c.prev.end < l) && f.start < l <= c.end
        ensures Shows(f, l) <==> l < c.start || Shows(c, l)
      {
        if l < c.start {
          Around(c);
          GapNotCovered(f, c.prev, c, l);
        } else {
          KidCovers(f, c, l);
        }
      }
    }

    lemma TailShows(f: Fold, c: Fold?, shows: iset<int>)
      requires Links() && f in nodes && !f.collapsed
      requires if c == null then f.children == null else c in nodes && c.parent == f && c.next == null
      requires shows == iset l | Shows(f, l)
      ensures forall l :: (if c == null then f.start else c.end) < l <= f.end ==> l in shows
    {
      forall l | (if c == null then f.start else c.end) < l <= f.end ensures Shows(f, l) {
        GapNotCovered(f, c, null, l);
      }
    }

    /** Takes the tag off the lines of fold that no collapsed fold within it hides. */
    method ExpandCheckVisible(fold: Fold)
      requires Valid() && fold in nodes
      modifies this`hidden
      decreases lineCount - fold.start, 0
      ensures TagOk()
      ensures forall l :: 0 <= l < lineCount ==> hidden[l] == (old(hidden)[l] && !old(Shows(fold, l)))
    {
      hide Shows, Links, Uncovered;
      Around(fold);
      ShowsBounds(fold);
      ghost var shows := iset l | Shows(fold, l);
      TagLines(fold.start, fold.start, false);
      if fold.collapsed {
        return;
      }
      ghost var before := old(hidden);
      ghost var done := fold.start;  // the lines of fold up to here have been dealt with
      ghost var h := hidden;
      ShownUpTo(before, h, shows, done, tagInstalled);
      var child := fold.children;
      if child != null {
        Around(child);
      }
      while child != null
        invariant TagOk()
        invariant child != null ==> child in nodes && child.parent == fold && child.start > done
        invariant child != null ==> done == if child.prev == null then fold.start else child.prev.end
        invariant child == null ==> fold.children == null && done == fold.start
        invariant fold.start <= done <= fold.end
        invariant h == hidden && Uncovered(h, before, shows, done)
        decreases if child == null then -1 else lineCount - child.start
      {
        Around(child);
        ExpandKid(fold, child, before, shows, done);
        h, done := hidden, child.end;
        if child.next == null {
          break;
        }
        child := child.next;
        Around(child);
      }
      TailShows(fold, child, shows);
      if child != null {
        if child.end < fold.end {
          TagLines(child.end + 1, fold.end, false);
        }
      } else {
        TagLines(fold.start + 1, fold.end, false);
      }
      UncoverTail(before, h, hidden, shows, done, fold.end, tagInstalled);
    }

    /** Shows the lines between a child and the one before it, and what there is to be seen of the child. */
    method ExpandKid(fold: Fold, child: Fold, ghost before: seq<bool>, ghost shows: iset<int>, ghost done: int)
      requires Valid() && fold in nodes && !fold.collapsed && child in nodes && child.parent == fold
      requires child.start > done && done == if child.prev == null then fold.start else child.prev.end
      requires fold.start <= done && shows == (iset l | Shows(fold, l)) && Uncovered(hidden, before, shows, done)
      modifies this`hidden
      decreases lineCount - child.start, 1
      ensures TagOk() && Uncovered(hidden, before, shows, child.end)
    {
      hide Shows, Links, Uncovered;
      Around(fold);
      Around(child);
      ghost var h := hidden;
      var startLine := if child.prev != null then child.prev.end + 1 else fold.start + 1;
      TagLines(startLine, child.start, false);
      ghost var h1 := hidden;
      ghost var kidShows := iset l | Shows(child, l);
      KidShows(fold, child, shows, kidShows);
      ExpandCheckVisible(child);
      UncoverKid(before, h, h1, hidden, shows, kidShows, done, child.start, child.end, tagInstalled);
    }

    /** No fold of the set lies around the given one. */
    ghost predicate NoneAround(s: set<Fold>, fold: Fold) {
      forall g :: g in s ==> !Inside(fold, g)
    }

    /** Expanding a fold shows its lines, the first one included, but for those that a collapsed fold inside it hides.
        That is exact unless a collapsed fold around it still hides its lines. */
    method Expand(fold: Fold)
      requires Valid() && fold in nodes
      modifies fold`collapsed, this`hidden
      ensures Valid() && !fold.collapsed
      ensures !old(fold.collapsed) ==> hidden == old(hidden)
      ensures old(fold.collapsed) ==> forall l :: 0 <= l < lineCount ==>
        (hidden[l] <==> old(hidden)[l] && (fold.start <= l <= fold.end ==>
          exists g :: g in nodes && g.collapsed && fold.start < g.start && g.end <= fold.end && g.start < l <= g.end))
      ensures tagInstalled && old(Exact()) ==> (Exact() <==> !old(fold.collapsed) || NoneAround(old(Collapsed()), fold))
      ensures Collapsed() == old(Collapsed()) - {fold}
      ensures old(Justified()) ==> Justified()
    {
      hide Shows, Links, Covered, NoneAround;
      assert fold in Collapsed() <==> fold.collapsed;
      if !fold.collapsed {
        return;
      }
      fold.collapsed := false;
      assert Collapsed() == old(Collapsed()) - {fold};
      ghost var shows := iset l | Shows(fold, l);
      ShowsIs(fold);
      ExpandCheckVisible(fold);
      ShowsIs(fold);
      assert forall l :: l in shows <==> Shows(fold, l);
      if tagInstalled && old(Exact()) {
        ExpandExact(fold, old(Collapsed()), old(hidden));
      }
      if old(Justified()) {
        ExpandJustified(fold, old(Collapsed()), old(hidden));
      }
    }

    lemma ShowsIs(fold: Fold)
      requires !fold.collapsed
      ensures forall l ::
        Shows(fold, l) <==> fold.start <= l <= fold.end && forall g ::
          g in nodes && g.collapsed && fold.start < g.start && g.end <= fold.end ==> !(g.start < l <= g.end)
    {
    }

    lemma ExpandJustified(fold: Fold, was: set<Fold>, before: seq<bool>)
      requires Links() && TagOk() && fold in nodes && Collapsed() == was - {fold} && was <= nodes
      requires |before| == lineCount && forall l :: 0 <= l < lineCount && before[l] ==> Covered(was, l)
      requires forall l :: 0 <= l < lineCount ==> hidden[l] == (before[l] && !Shows(fold, l))
      ensures Justified()
    {
      forall l | 0 <= l < |hidden| && hidden[l] ensures Covered(Collapsed(), l) {
        var g :| g in was && g.Covers(l);
        if g == fold {
          var h :| h in nodes && h.collapsed && (h == fold || Inside(h, fold)) && h.Covers(l);
          assert h in Collapsed();
        } else {
          assert g in Collapsed();
        }
      }
    }

    lemma ExpandExact(fold: Fold, was: set<Fold>, before: seq<bool>)
      requires Links() && TagOk() && fold in nodes && fold in was && Collapsed() == was - {fold} && was <= nodes
      requires |before| == lineCount && forall l :: 0 <= l < lineCount ==> (before[l] <==> Covered(was, l))
      requires forall l :: 0 <= l < lineCount ==> hidden[l] == (before[l] && !Shows(fold, l))
      ensures Exact() <==> NoneAround(was, fold)
    {
      if NoneAround(was, fold) {
        forall l | 0 <= l < lineCount ensures hidden[l] <==> Covered(Collapsed(), l) {
          ExpandExactAt(fold, was, l);
        }
      } else {
        var g :| g in was && Inside(fold, g);
        assert g in Collapsed() && g.Covers(fold.start);
        ShowsBounds(fold);
        assert !hidden[fold.start];
      }
    }

    lemma ExpandExactAt(fold: Fold, was: set<Fold>, l: int)
      requires Links() && fold in nodes && fold in was && Collapsed() == was - {fold} && was <= nodes
      requires NoneAround(was, fold)
      ensures Covered(Collapsed(), l) <==> Covered(was, l) && !Shows(fold, l)
    {
      if Covered(Collapsed(), l) {
        var g :| g in Collapsed() && g.Covers(l);
        assert Nested(fold, g);
        assert Inside(fold, g) || Inside(g, fold) || Apart(fold, g);
      } else if Covered(was, l) {
        var g :| g in was && g.Covers(l);
        assert g == fold;
        assert !CoveredWithin(fold, l);
      }
    }

    /** With exact visibility a caller sees on the fold's own line whether it may be expanded. */
    lemma VisibleHead(fold: Fold)
      requires Links() && TagOk() && Exact() && fold in nodes
      ensures NoneAround(Collapsed(), fold) <==> !hidden[fold.start]
    {
      if hidden[fold.start] {
        var g :| g in Collapsed() && g.Covers(fold.start);
        assert Nested(fold, g);
        assert Inside(fold, g);
      } else {
        forall g | g in Collapsed() ensures !Inside(fold, g) {
          assert !g.Covers(fold.start);
        }
      }
    }

    // ----- traversal in pre-order

    /** Nothing starts behind `from` and at or before `to`. */
    ghost predicate NoneBetween(from: Fold, to: int)
      reads this`nodes
    {
      forall g :: g in nodes ==> g.start <= from.start || to < g.start
    }

    lemma NextInOrder(iter: Fold, at: Fold)
      requires Links() && iter in nodes && at in nodes && at.next != null && at.start <= iter.start &&
        NoneBetween(iter, at.end)
      ensures forall g :: g in nodes ==> g.start <= iter.start || at.next.start <= g.start
    {
      Around(at);
      forall g | g in nodes && iter.start < g.start < at.next.start ensures false {
        var p := at.parent;
        assert p != null ==> Nested(g, p) && Inside(at, p) && Inside(at.next, p);
        var k := TopKid(p, g);
        if k != at {
          SiblingsApart(k, at);
        }
      }
    }

    lemma LastInParent(iter: Fold, at: Fold)
      requires Links() && iter in nodes && at in nodes && at.next == null && at.start <= iter.start &&
        NoneBetween(iter, at.end)
      ensures at.parent == null ==> forall g :: g in nodes ==> g.start <= iter.start
      ensures at.parent != null ==>
        at.parent in nodes && at.parent.start <= iter.start && NoneBetween(iter, at.parent.end)
    {
      Around(at);
      var p := at.parent;
      forall g | g in nodes && iter.start < g.start && (p != null ==> g.start <= p.end) ensures false {
        assert p != null ==> Nested(g, p) && Inside(at, p);
        var k := TopKid(p, g);
        if k != at {
          SiblingsApart(k, at);
        }
      }
    }

    lemma NothingInside(iter: Fold)
      requires Links() && iter in nodes
      ensures iter.children == null ==> NoneBetween(iter, iter.end)
      ensures iter.children != null ==> iter.children in nodes && iter.start < iter.children.start
      ensures iter.children != null ==> forall g :: g in nodes ==>
        g.start <= iter.start || iter.children.start <= g.start
    {
      Around(iter);
      assert ListOk(iter);
      forall g | g in nodes && iter.start < g.start <= iter.end
        ensures iter.children != null && iter.children.start <= g.start
      {
        assert Nested(g, iter);
        assert Inside(g, iter);
        var k := TopKid(iter, g);
      }
    }

    /** One step of the traversal: the fold that starts next after iter, if any. */
    method Advance(iter: Fold) returns (r: Fold?)
      requires Links() && iter in nodes
      ensures r == null ==> forall g :: g in nodes ==> g.start <= iter.start
      ensures r != null ==> r in nodes && iter.start < r.start
      ensures r != null ==> forall g :: g in nodes ==> g.start <= iter.start || r.start <= g.start
    {
      hide Links;
      NothingInside(iter);
      if iter.children != null {
        r := iter.children;
      } else if iter.next != null {
        NextInOrder(iter, iter);
        Around(iter);
        r := iter.next;
      } else {
        var at := iter;
        Around(iter);
        while at.parent != null && at.parent.next == null
          invariant at in nodes && at.next == null && at.start <= iter.start <= at.end && NoneBetween(iter, at.end)
          decreases at.start
        {
          LastInParent(iter, at);
          Around(at);
          at := at.parent;
          Around(at);
        }
        LastInParent(iter, at);
        Around(at);
        if at.parent != null {
          NextInOrder(iter, at.parent);
          Around(at.parent);
        }
        r := if at.parent != null then at.parent.next else null;
      }
    }

    /** Where the traversal starts: the fold that starts first, if any. */
    lemma FirstInOrder()
      requires Links()
      ensures folds == null ==> nodes == {}
      ensures folds != null ==> folds in nodes && forall g :: g in nodes ==> folds.start <= g.start
    {
      forall g | g in nodes ensures folds != null && folds.start <= g.start {
        var k := TopKid(null, g);
      }
    }

    /** Expands every fold; only lines from the first collapsed one on can have been hidden. */
    method ExpandAll() returns (ret: bool)
      requires Valid() && Justified()
      modifies nodes`collapsed, this`hidden
      ensures Valid() && Exact() && Collapsed() == {}
      ensures forall l :: 0 <= l < lineCount ==> !hidden[l]
      ensures ret <==> old(Collapsed()) != {}
    {
      FirstInOrder();
      var first: Fold? := null;
      var fold := folds;
      while fold != null
        invariant hidden == old(hidden)
        invariant fold != null ==> fold in nodes
        invariant forall g :: g in nodes && (fold == null || g.start < fold.start) ==> !g.collapsed
        invariant forall g :: g in nodes && fold != null && fold.start <= g.start ==> g.collapsed == old(g.collapsed)
        invariant first == null ==> forall g :: g in nodes && (fold == null || g.start < fold.start) ==>
          !old(g.collapsed)
        invariant first != null ==>
          first in nodes && old(first.collapsed) && (fold != null ==> first.start < fold.start)
        invariant first != null ==> forall g :: g in nodes && g.start < first.start ==> !old(g.collapsed)
        decreases if fold == null then -1 else lineCount - fold.start
      {
        if !fold.deleted && fold.collapsed {
          if first == null {
            first := fold;
          }
          fold.collapsed := false;
        }
        OneStart(fold);
        fold := Advance(fold);
      }
      assert first != null ==> first in old(Collapsed());
      assert first == null ==> forall g :: g in nodes ==> g !in old(Collapsed());
      if first != null {
        TagLines(first.start, lineCount - 1, false);
        ret := true;
      } else {
        ret := false;
      }
    }

    lemma FirstKid(p: Fold?, kids: set<Fold>)
      requires Links() && (p == null || p in nodes) && kids == Kids(p)
      ensures Head(p) == null ==> kids == {}
      ensures Head(p) != null ==> Head(p) in kids && forall g :: g in kids ==> Head(p).start <= g.start
    {
      assert ListOk(p);
    }

    lemma KidFacts(p: Fold?, f: Fold, kids: set<Fold>)
      requires Links() && kids == Kids(p) && f in kids
      ensures f in nodes && f.parent == p && 0 <= f.start < lineCount && (f.collapsed <==> f in Collapsed())
      ensures f.next != null ==> f.next in kids && f.start < f.next.start
      ensures forall g :: g in kids ==> g == f || g.start < f.start || (f.next != null && f.next.start <= g.start)
    {
      Around(f);
      OneStart(f);
    }

    lemma CoveredMore(seen: set<Fold>, was: set<Fold>, f: Fold)
      ensures forall l ::
        Covered(seen + {f} - was, l) <==> Covered(seen - was, l) || (f !in was && f.start < l <= f.end)
    {
      var more := seen + {f} - was;
      assert forall g :: g in more <==> g in seen - was || (g == f && f !in was);
      assert f !in was ==> f in more;
    }

    /** Collapses the folds of the topmost list. */
    method CollapseAll() returns (ret: bool)
      requires Valid()
      modifies nodes`collapsed, this`hidden
      ensures Valid() && (tagInstalled && old(Exact()) ==> Exact()) && (old(Justified()) ==> Justified())
      ensures Collapsed() == old(Collapsed()) + Kids(null)
      ensures ret <==> !(Kids(null) <= old(Collapsed()))
      ensures forall l :: 0 <= l < lineCount ==>
        hidden[l] == (old(hidden)[l] ||
          (tagInstalled && exists g :: g in Kids(null) - old(Collapsed()) && g.start < l <= g.end))
    {
      hide Links, Exact, Justified, Collapsed, Kids;
      ret := false;
      var fold := folds;
      ghost var seen: set<Fold> := {};
      ghost var top := Kids(null);
      FirstKid(null, top);
      while fold != null
        invariant TagOk() && (tagInstalled && old(Exact()) ==> Exact()) && (old(Justified()) ==> Justified())
        invariant fold != null ==> fold in top
        invariant seen <= top && forall g :: g in top ==> (g in seen <==> fold == null || g.start < fold.start)
        invariant Collapsed() == old(Collapsed()) + seen
        invariant ret <==> !(seen <= old(Collapsed()))
        invariant forall l :: 0 <= l < lineCount ==>
          hidden[l] == (old(hidden)[l] || (tagInstalled && Covered(seen - old(Collapsed()), l)))
        decreases if fold == null then -1 else lineCount - fold.start
      {
        ghost var before := Collapsed();
        KidFacts(null, fold, top);
        if !fold.collapsed {
          ret := true;
        }
        Collapse(fold);
        CoveredMore(seen, old(Collapsed()), fold);
        seen := seen + {fold};
        fold := fold.next;
      }
      assert seen == Kids(null);
    }

    // ----- removing a fold

    /** What splicing fold out of its list in favour of its children does to every pointer. */
    twostate predicate Spliced(fold: Fold, new last: Fold?)
      requires fold in old(nodes)
      reads this`folds, this`nFolds, this`nodes, nodes`parent, nodes`next, nodes`prev,
            nodes`children, nodes`nChildren, nodes`deleted
    {
      var p, first, n := old(fold.parent), old(fold.children), old(fold.nChildren);
      var head := if old(Head(p)) != fold then old(Head(p)) else if first != null then first else old(fold.next);
      && nodes == old(nodes) - {fold}
      && folds == (if p == null then head else old(folds))
      && nFolds == (if p == null then old(nFolds) + n - 1 else old(nFolds))
      && (forall g :: g in nodes ==>
        && !g.deleted
        && g.parent == (if old(g.parent) == fold then p else old(g.parent))
        && g.children == (if g == p then head else old(g.children))
        && g.nChildren == (if g == p then old(g.nChildren) + n - 1 else old(g.nChildren)))
      && (forall g {:trigger g.next} :: g in nodes ==>
        g.next == (if g == last || (last == null && g == old(fold.prev)) then old(fold.next)
                   else if g == old(fold.prev) then first else old(g.next)))
      && (forall g {:trigger g.prev} :: g in nodes ==>
        g.prev == (if g == first || (first == null && g == old(fold.next)) then old(fold.prev)
                   else if g == old(fold.next) then last else old(g.prev)))
    }

    twostate lemma SplicedParents(fold: Fold, new last: Fold?)
      requires old(Links()) && fold in old(nodes) && (last == null || last in old(nodes)) && Spliced(fold, last)
      ensures Laminar() && ParentsOk()
    {
      hide SiblingsOk, ListOk;
      forall f | f in nodes && f.parent != null ensures f.parent in nodes && Inside(f, f.parent) {
        assert old(f.parent) != null ==> Inside(f, old(f.parent));
        assert old(fold.parent) != null ==> Inside(fold, old(fold.parent));
      }
      forall f, g | f in nodes && g in nodes && Inside(f, g)
        ensures f.parent != null && (f.parent == g || (g.start < f.parent.start && f.parent.end <= g.end))
      {
        if old(f.parent) == fold {
          assert Inside(fold, g);
        }
      }
    }

    /** last is the last fold of the list of fold, if there is one. */
    ghost predicate LastKid(fold: Fold, last: Fold?)
      reads fold`children, nodes, this`nodes
    {
      if fold.children == null then last == null
      else last != null && last in nodes && last.parent == fold && last.next == null
    }

    twostate lemma SplicedNext(fold: Fold, new last: Fold?, new f: Fold)
      requires old(Links()) && fold in old(nodes) && (last == null || last in old(nodes)) && Spliced(fold, last) &&
        old(LastKid(fold, last)) && f in nodes
      ensures f.next != null ==> f.next in nodes && f.next.parent == f.parent && f.end < f.next.start
    {
      var first, prev, next := old(fold.children), old(fold.prev), old(fold.next);
      assert old(ListOk(fold));
      assert next != null ==> old(next.parent) == old(fold.parent) && fold.end < next.start;
      assert prev != null ==> old(prev.parent) == old(fold.parent) && prev.end < fold.start && Nested(f, prev);
      assert last != null ==> Inside(last, fold) && Inside(first, fold);
    }

    twostate lemma SplicedPrev(fold: Fold, new last: Fold?, new f: Fold)
      requires old(Links()) && fold in old(nodes) && (last == null || last in old(nodes)) && Spliced(fold, last) &&
        old(LastKid(fold, last)) && f in nodes
      ensures f.prev != null ==> f.prev in nodes && f.prev.parent == f.parent && f.prev.end < f.start
    {
      var first, prev, next := old(fold.children), old(fold.prev), old(fold.next);
      assert old(ListOk(fold));
      assert next != null ==> old(next.parent) == old(fold.parent) && fold.end < next.start && Nested(f, next);
      assert prev != null ==> old(prev.parent) == old(fold.parent) && prev.end < fold.start;
      assert last != null ==> Inside(last, fold) && Inside(first, fold);
    }

    twostate lemma SplicedOrder(fold: Fold, new last: Fold?, new f: Fold, new g: Fold)
      requires old(Links()) && fold in old(nodes) && (last == null || last in old(nodes)) && Spliced(fold, last) &&
        old(LastKid(fold, last))
      requires f in nodes && g in nodes && f.parent == g.parent && f.start < g.start
      ensures f.next != null && f.next.start <= g.start
      ensures g.prev != null && f.start <= g.prev.start
    {
      var first, prev, next := old(fold.children), old(fold.prev), old(fold.next);
      assert old(ListOk(fold));
      assert next != null ==> old(next.parent) == old(fold.parent) && fold.end < next.start && Nested(g, next);
      assert prev != null ==> old(prev.parent) == old(fold.parent) && prev.end < fold.start && Nested(f, prev);
      assert last != null ==> Inside(last, fold) && Inside(first, fold) && Nested(f, last) && Nested(g, first);
      assert Nested(f, fold) && Nested(g, fold);
    }

    twostate lemma SplicedKids(fold: Fold, new last: Fold?, new q: Fold?)
      requires old(Links()) && fold in old(nodes) && (last == null || last in old(nodes)) && Spliced(fold, last)
      requires q == null || q in nodes
      ensures Kids(q) == if q == old(fold.parent) then old(Kids(q)) - {fold} + old(Kids(fold)) else old(Kids(q))
      ensures |Kids(q)| == if q == old(fold.parent) then |old(Kids(q))| - 1 + |old(Kids(fold))| else |old(Kids(q))|
    {
      assert old(fold.parent) != fold;
      var was, own := old(Kids(q)), old(Kids(fold));
      if q == old(fold.parent) {
        assert fold in was && was !! own;
        SwapSize(was, fold, own);
      }
      SplicedKidsAre(fold, last, q);
    }

    lemma SwapSize<T>(a: set<T>, x: T, b: set<T>)
      requires x in a && a !! b
      ensures |a - {x} + b| == |a| - 1 + |b|
    {
      assert |a - {x} + b| == |a - {x}| + |b|;
    }

    twostate lemma SplicedKidsAre(fold: Fold, new last: Fold?, new q: Fold?)
      requires old(Links()) && fold in old(nodes) && (last == null || last in old(nodes)) && Spliced(fold, last)
      requires q == null || q in nodes
      ensures Kids(q) == if q == old(fold.parent) then old(Kids(q)) - {fold} + old(Kids(fold)) else old(Kids(q))
    {
    }

    twostate lemma SplicedCount(fold: Fold, new last: Fold?, new q: Fold?)
      requires old(Links()) && fold in old(nodes) && (last == null || last in old(nodes)) && Spliced(fold, last)
      requires q == null || q in nodes
      ensures Count(q) == |Kids(q)|
    {
      hide Kids, Laminar, ParentsOk, SiblingsOk;
      SplicedKids(fold, last, q);
      assert old(ListOk(q)) && old(ListOk(fold));
    }

    twostate lemma SplicedHead(fold: Fold, new last: Fold?, new q: Fold?)
      requires old(Links()) && fold in old(nodes) && (last == null || last in old(nodes)) && Spliced(fold, last) &&
        (q == null || q in nodes)
      ensures Head(q) != null ==> Head(q) in nodes && Head(q).parent == q
      ensures forall f :: f in nodes && f.parent == q ==> Head(q) != null && Head(q).start <= f.start
    {
      var first, next := old(fold.children), old(fold.next);
      assert old(ListOk(q)) && old(ListOk(fold));
      assert next != null ==> old(next.parent) == old(fold.parent) && fold.end < next.start;
      assert first != null ==> Inside(first, fold);
      forall f | f in nodes && f.parent == q ensures Head(q) != null && Head(q).start <= f.start {
        assert Nested(f, fold);
        assert old(f.parent) == fold ==> Inside(f, fold);
      }
    }

    twostate lemma SplicedSiblings(fold: Fold, new last: Fold?)
      requires old(Links()) && fold in old(nodes) && (last == null || last in old(nodes)) && Spliced(fold, last) &&
        old(LastKid(fold, last))
      requires nodes == old(nodes) - {fold}
      ensures SiblingsOk()
    {
      hide Spliced, LastKid, Links;
      forall f | f in nodes ensures
        && (f.next != null ==> f.next in nodes && f.next.parent == f.parent && f.end < f.next.start)
        && (f.prev != null ==> f.prev in nodes && f.prev.parent == f.parent && f.prev.end < f.start)
      {
        SplicedNext(fold, last, f);
        SplicedPrev(fold, last, f);
      }
      forall f, g | f in nodes && g in nodes && f.parent == g.parent && f.start < g.start ensures
        && f.next != null && f.next.start <= g.start
        && g.prev != null && f.start <= g.prev.start
      {
        SplicedOrder(fold, last, f, g);
      }
    }

    twostate lemma SplicedLinks(fold: Fold, new last: Fold?)
      requires old(Links()) && fold in old(nodes) && (last == null || last in old(nodes)) && Spliced(fold, last) &&
        old(LastKid(fold, last))
      requires nodes == old(nodes) - {fold}
      ensures Links()
    {
      hide Spliced, LastKid, Laminar, ParentsOk, SiblingsOk;
      SplicedParents(fold, last);
      SplicedSiblings(fold, last);
      forall q: Fold? | q == null || q in nodes ensures ListOk(q) {
        SplicedHead(fold, last, q);
        SplicedCount(fold, last, q);
      }
    }

    lemma SpliceFacts(fold: Fold, kids: set<Fold>)
      requires Links() && fold in nodes && kids == Kids(fold)
      ensures fold !in kids && kids <= nodes && forall g :: g in nodes ==> (g in kids <==> g.parent == fold)
      ensures fold.parent != null ==> fold.parent in nodes && fold.parent != fold && fold.parent !in kids
      ensures fold.prev != null ==>
        fold.prev in nodes && fold.prev != fold && fold.prev !in kids && fold.prev.next == fold
      ensures fold.next != null ==>
        fold.next in nodes && fold.next != fold && fold.next !in kids && fold.next.prev == fold
      ensures fold.prev != null && fold.next != null ==> fold.prev != fold.next
      ensures fold.children == null ==> kids == {}
      ensures fold.children != null ==> fold.children in kids && forall k :: k in kids ==>
        fold.children.start <= k.start
      ensures forall k :: k in kids ==> 0 <= k.start < lineCount
      ensures forall k :: k in kids ==> k.next != null ==> k.next in kids && k.start < k.next.start
      ensures forall k, g :: k in kids && g in kids ==>
        g == k || g.start < k.start || (k.next != null && k.next.start <= g.start)
      ensures forall g :: g in nodes ==> !g.deleted
      ensures fold == Head(fold.parent) <==> fold.prev == null
    {
      Around(fold);
      assert ListOk(fold) && ListOk(fold.parent);
      if Head(fold.parent) != null {
        assert Nested(fold, Head(fold.parent));
        assert fold.prev != null ==> fold.prev.parent == fold.parent;
      }
      forall k | k in kids ensures 0 <= k.start < lineCount &&
        (k.next != null ==> k.next in kids && k.start < k.next.start)
        && forall g :: g in kids ==> g == k || g.start < k.start || (k.next != null && k.next.start <= g.start)
      {
        KidFacts(fold, k, kids);
      }
    }

    /** Hands the children of fold over to its parent; returns the last of them. */
    method HandOver(fold: Fold, ghost kids: set<Fold>) returns (last: Fold?)
      requires Links() && fold in nodes && kids == Kids(fold)
      modifies nodes`parent
      ensures forall g :: g in nodes ==> g.parent == if g in kids then old(fold.parent) else old(g.parent)
      ensures if fold.children == null then last == null else last in kids && last.next == null
    {
      hide Links, Kids;
      SpliceFacts(fold, kids);
      last := fold.children;
      if last != null {
        while true
          invariant last in kids
          invariant forall g :: g in nodes ==>
            g.parent == if g in kids && g.start < last.start then old(fold.parent) else old(g.parent)
          decreases lineCount - last.start
        {
          last.parent := fold.parent;
          if last.next == null {
            break;
          }
          last := last.next;
        }
      }
    }

    /** Puts the list first..last, or nothing if it is empty, where fold was in its list. */
    method LinkInPlace(fold: Fold, first: Fold?, last: Fold?)
      requires fold in nodes && (first != null ==> first in nodes && last != null && last in nodes) &&
        (first == null ==> last == null)
      requires fold.prev != null ==> fold.prev in nodes && fold.prev != last
      requires fold.next != null ==> fold.next in nodes && fold.next != first
      requires fold != first && fold != last && fold.prev != fold && fold.next != fold
      modifies nodes`next, nodes`prev
      ensures forall g {:trigger g.next} :: g in nodes ==>
        g.next == (if last != null && g == last then old(fold.next)
                   else if g == old(fold.prev) then (if first != null then first else old(fold.next))
                   else old(g.next))
      ensures forall g {:trigger g.prev} :: g in nodes ==>
        g.prev == (if first != null && g == first then old(fold.prev)
                   else if g == old(fold.next) then (if last != null then last else old(fold.prev))
                   else old(g.prev))
    {
      if last != null {
        last.next := fold.next;
      }
      if fold.next != null {
        fold.next.prev := if last != null then last else fold.prev;
      }
      if first != null {
        first.prev := fold.prev;
      }
      if fold.prev != null {
        fold.prev.next := if first != null then first else fold.next;
      }
    }

    /** The list of folds below parent begins with the children of fold, or the fold behind it, if it began
        with fold. */
    method LeaveParent(parent: Fold?, fold: Fold, children: Fold?, nChildren: int)
      requires parent == null || parent in nodes
      modifies this`folds, this`nFolds, nodes`children, nodes`nChildren
      ensures folds == if parent != null || old(folds) != fold then old(folds) else if children != null then children
        else fold.next
      ensures nFolds == if parent == null then old(nFolds) + nChildren - 1 else old(nFolds)
      ensures forall g :: g in nodes ==>
        && g.children == (if g != parent || old(g.children) != fold then old(g.children)
          else if children != null then children else fold.next)
        && g.nChildren == (if g == parent then old(g.nChildren) + nChildren - 1 else old(g.nChildren))
    {
      if parent != null {
        if fold == parent.children {
          parent.children := if children != null then children else parent.children.next;
        }
        parent.nChildren := parent.nChildren + nChildren - 1;
      } else {
        if fold == folds {
          folds := if children != null then children else folds.next;
        }
        nFolds := nFolds + nChildren - 1;
      }
    }

    /** Puts the children of a fold in its place in its list. */
    method TakeApart(fold: Fold) returns (last: Fold?)
      requires Links() && fold in nodes
      modifies this`folds, this`nFolds, this`nodes, nodes`parent, nodes`next, nodes`prev,
               nodes`children, nodes`nChildren, nodes`deleted
      ensures (last == null || last in old(nodes)) && Spliced(fold, last) && old(LastKid(fold, last))
      ensures fold.deleted && nodes == old(nodes) - {fold}
    {
      hide Links, Kids;
      ghost var kids := Kids(fold);
      SpliceFacts(fold, kids);
      var nChildren := fold.nChildren;
      var children, parent := fold.children, fold.parent;
      last := HandOver(fold, kids);
      LeaveParent(parent, fold, children, nChildren);
      fold.deleted := true;
      LinkInPlace(fold, children, last);
      nodes := nodes - {fold};
    }

    /** The pointer part of removing a fold: its children take its place in its list. */
    method Unlink(fold: Fold)
      requires Links() && fold in nodes
      modifies this`folds, this`nFolds, this`nodes, nodes`parent, nodes`next, nodes`prev,
               nodes`children, nodes`nChildren, nodes`deleted
      ensures Links() && nodes == old(nodes) - {fold} && fold.deleted
    {
      hide Links, Spliced, LastKid;
      var last := TakeApart(fold);
      SplicedLinks(fold, last);
    }

    // ----- inserting a fold

    /** The folds of p that lie within the range. */
    ghost function Wrapped(p: Fold?, first: int, last: int): set<Fold>
      reads this`nodes, nodes`parent
    {
      set k | k in nodes && k.parent == p && Within(k, first, last)
    }

    /** The place of a range in the list of p: the neighbours it gets and the folds it takes in. */
    ghost predicate SlotOk(s: Slot)
      reads this`nodes, nodes`parent
    {
      && (s.p != null ==> s.p in nodes) && Encloses(s.p, s.from, s.to) && 0 <= s.from < s.to < lineCount
      && (s.prev != null ==> s.prev in nodes && s.prev.parent == s.p && s.prev.end < s.from)
      && (s.next != null ==> s.next in nodes && s.next.parent == s.p && s.to < s.next.start)
      && (s.first != null ==> s.first in Wrapped(s.p, s.from, s.to))
      && (s.last != null ==> s.last in Wrapped(s.p, s.from, s.to))
      && (s.first == null <==> s.last == null)
      && (forall k {:trigger k.parent} :: k in nodes && k.parent == s.p ==>
        || (k.end < s.from && s.prev != null && k.start <= s.prev.start)
        || (s.to < k.start && s.next != null && s.next.start <= k.start)
        || (Within(k, s.from, s.to) && s.first != null && s.first.start <= k.start <= s.last.start))
    }

    /** What linking n into its slot does to every pointer. */
    twostate predicate Linked(new n: Fold, s: Slot)
      reads this`folds, this`nFolds, this`nodes, nodes`parent, nodes`next, nodes`prev,
            nodes`children, nodes`nChildren, nodes`deleted
    {
      var kids := old(Wrapped(s.p, s.from, s.to));
      && n !in old(nodes) && nodes == old(nodes) + {n} && !n.deleted && n.start == s.from && n.end == s.to
      && n.parent == s.p && n.prev == s.prev && n.next == s.next
      && n.children == s.first && n.nChildren == |kids|
      && folds == (if s.p == null && s.prev == null then n else old(folds))
      && nFolds == (if s.p == null then old(nFolds) + 1 - |kids| else old(nFolds))
      && (forall g :: g in old(nodes) ==>
        && !g.deleted
        && g.parent == (if g in kids then n else old(g.parent))
        && g.children == (if g == s.p && s.prev == null then n else old(g.children))
        && g.nChildren == (if g == s.p then old(g.nChildren) + 1 - |kids| else old(g.nChildren)))
      && (forall g {:trigger g.next} :: g in old(nodes) ==>
        g.next == (if g == s.last then null else if g == s.prev then n else old(g.next)))
      && (forall g {:trigger g.prev} :: g in old(nodes) ==>
        g.prev == (if g == s.first then null else if g == s.next then n else old(g.prev)))
    }

    /** Where a fold lies that is not touched by the range: apart, within it, or around it and then around p. */
    ghost predicate PlacedBy(s: Slot, g: Fold)
      reads g`parent
    {
      && (Beside(g, s.from, s.to) || Within(g, s.from, s.to) ||
        (Encloses(g, s.from, s.to) && s.p != null && (g == s.p || Inside(s.p, g))))
      && (Within(g, s.from, s.to) ==> g.parent == s.p || (g.parent != null && Within(g.parent, s.from, s.to)))
    }

    twostate lemma LinkedLaminar(new n: Fold, s: Slot)
      requires old(Links()) && old(SlotOk(s)) && Linked(n, s)
      requires forall g :: g in old(nodes) ==> old(PlacedBy(s, g))
      ensures Laminar()
    {
      hide SiblingsOk, ListOk, ParentsOk;
      forall f, g | f in nodes && g in nodes ensures Nested(f, g) {
        assert f in old(nodes) ==> old(PlacedBy(s, f));
        assert g in old(nodes) ==> old(PlacedBy(s, g));
      }
    }

    twostate lemma LinkedParent(new n: Fold, s: Slot, new f: Fold)
      requires old(Links()) && old(SlotOk(s)) && Linked(n, s) && f in nodes
      ensures f.parent != null ==> f.parent in nodes && Inside(f, f.parent)
    {
      hide SiblingsOk, ListOk, Laminar;
      assert f != n && old(f.parent) != null ==> Inside(f, old(f.parent));
    }

    twostate lemma LinkedLeast(new n: Fold, s: Slot, new f: Fold, new g: Fold)
      requires old(Links()) && old(SlotOk(s)) && Linked(n, s) && f in nodes && g in nodes && Inside(f, g)
      requires forall g :: g in old(nodes) ==> old(PlacedBy(s, g))
      ensures f.parent != null && (f.parent == g || (g.start < f.parent.start && f.parent.end <= g.end))
    {
      hide SiblingsOk, ListOk, Laminar;
      assert f in old(nodes) ==> old(PlacedBy(s, f));
      assert g in old(nodes) ==> old(PlacedBy(s, g));
    }

    twostate lemma LinkedNext(new n: Fold, s: Slot, new f: Fold)
      requires old(Links()) && old(SlotOk(s)) && Linked(n, s) && f in nodes
      ensures f.next != null ==> f.next in nodes && f.next.parent == f.parent && f.end < f.next.start
    {
      hide ListOk, ParentsOk;
      if f != n && old(f.next) != null {
        var x := old(f.next);
        assert old(x.parent) == old(f.parent);
        assert s.prev != null ==> Nested(f, s.prev) && Nested(x, s.prev);
        assert s.last != null ==> Nested(f, s.last) && Nested(x, s.last);
      }
    }

    twostate lemma LinkedPrev(new n: Fold, s: Slot, new f: Fold)
      requires old(Links()) && old(SlotOk(s)) && Linked(n, s) && f in nodes
      ensures f.prev != null ==> f.prev in nodes && f.prev.parent == f.parent && f.prev.end < f.start
    {
      hide ListOk, ParentsOk;
      if f != n && old(f.prev) != null {
        var x := old(f.prev);
        assert old(x.parent) == old(f.parent);
        assert s.next != null ==> Nested(f, s.next) && Nested(x, s.next);
        assert s.first != null ==> Nested(f, s.first) && Nested(x, s.first);
      }
    }

    twostate lemma OldParent(new n: Fold, s: Slot, new f: Fold)
      requires old(Links()) && Linked(n, s) && f in old(nodes)
      ensures f != n && old(f.parent) != n
      ensures old(f.parent) != null ==> old(f.parent) in old(nodes)
    {
    }

    twostate lemma LinkedOrder(new n: Fold, s: Slot, new f: Fold, new g: Fold)
      requires old(Links()) && old(SlotOk(s)) && Linked(n, s)
      requires f in nodes && g in nodes && f.parent == g.parent && f.start < g.start
      ensures f.next != null && f.next.start <= g.start
      ensures g.prev != null && f.start <= g.prev.start
    {
      hide ListOk, ParentsOk, Kids;
      if f != n {
        OldParent(n, s, f);
        assert s.prev != null ==> Nested(f, s.prev);
        assert s.last != null ==> Nested(f, s.last);
      }
      if g != n {
        OldParent(n, s, g);
        assert s.next != null ==> Nested(g, s.next);
        assert s.first != null ==> Nested(g, s.first);
      }
    }

    twostate lemma LinkedHead(new n: Fold, s: Slot, new q: Fold?)
      requires old(Links()) && old(SlotOk(s)) && Linked(n, s) && (q == null || q in nodes)
      ensures Head(q) != null ==> Head(q) in nodes && Head(q).parent == q
      ensures forall f :: f in nodes && f.parent == q ==> Head(q) != null && Head(q).start <= f.start
    {
      hide SiblingsOk, ParentsOk, Kids;
      if q != n {
        assert old(ListOk(q));
      }
      forall f | f in nodes && f.parent == q ensures Head(q) != null && Head(q).start <= f.start {
        if f != n {
          OldParent(n, s, f);
          assert old(f.parent) == q || f in old(Wrapped(s.p, s.from, s.to));
        } else if s.prev != null {
          assert old(s.prev.parent) == q;
          assert Head(q) == old(Head(q));
        }
      }
    }

    twostate lemma LinkedKids(new n: Fold, s: Slot, new q: Fold?)
      requires old(Links()) && old(SlotOk(s)) && Linked(n, s) && (q == null || q in nodes) && q != n
      ensures Kids(q) == if q == s.p then (old(Kids(q)) - old(Wrapped(s.p, s.from, s.to))) + {n} else old(Kids(q))
    {
      hide SiblingsOk, ListOk, Laminar;
    }

    twostate lemma LinkedCount(new n: Fold, s: Slot, new q: Fold?)
      requires old(Links()) && old(SlotOk(s)) && Linked(n, s) && (q == null || q in nodes)
      ensures Count(q) == |Kids(q)|
    {
      hide SiblingsOk, ParentsOk, Laminar, SlotOk;
      if q == n {
        WrappedKids(n, s);
      } else {
        LinkedKids(n, s, q);
        assert old(ListOk(q));
        if q == s.p {
          KidsExchanged(n, old(Kids(q)), old(Wrapped(s.p, s.from, s.to)));
        }
      }
    }

    lemma KidsExchanged(n: Fold, kids: set<Fold>, taken: set<Fold>)
      requires taken <= kids && n !in kids
      ensures |(kids - taken) + {n}| == |kids| + 1 - |taken|
    {
      assert |kids - taken| == |kids| - |taken|;
    }

    twostate lemma WrappedKids(new n: Fold, s: Slot)
      requires old(Links()) && old(SlotOk(s)) && Linked(n, s)
      ensures Kids(n) == old(Wrapped(s.p, s.from, s.to))
    {
      forall f | f in Kids(n) ensures f in old(Wrapped(s.p, s.from, s.to)) {
        if f != n {
          OldParent(n, s, f);
        }
      }
    }

    twostate lemma LinkedSiblings(new n: Fold, s: Slot)
      requires old(Links()) && old(SlotOk(s)) && Linked(n, s)
      ensures SiblingsOk()
    {
      hide Linked, SlotOk, Links;
      forall f | f in nodes ensures
        && (f.next != null ==> f.next in nodes && f.next.parent == f.parent && f.end < f.next.start)
        && (f.prev != null ==> f.prev in nodes && f.prev.parent == f.parent && f.prev.end < f.start)
      {
        LinkedNext(n, s, f);
        LinkedPrev(n, s, f);
      }
      forall f, g | f in nodes && g in nodes && f.parent == g.parent && f.start < g.start ensures
        && f.next != null && f.next.start <= g.start
        && g.prev != null && f.start <= g.prev.start
      {
        LinkedOrder(n, s, f, g);
      }
    }

    twostate lemma LinkedParents(new n: Fold, s: Slot)
      requires old(Links()) && old(SlotOk(s)) && Linked(n, s)
      requires forall g :: g in old(nodes) ==> old(PlacedBy(s, g))
      ensures ParentsOk()
    {
      hide SlotOk, Links, PlacedBy;
      forall f | f in nodes && f.parent != null ensures f.parent in nodes && Inside(f, f.parent) {
        LinkedParent(n, s, f);
      }
      forall f, g | f in nodes && g in nodes && Inside(f, g)
        ensures f.parent != null && (f.parent == g || (g.start < f.parent.start && f.parent.end <= g.end))
      {
        LinkedLeast(n, s, f, g);
      }
    }

    twostate lemma LinkedLinks(new n: Fold, s: Slot)
      requires old(Links()) && old(SlotOk(s)) && Linked(n, s)
      requires forall g :: g in old(nodes) ==> old(PlacedBy(s, g))
      ensures Links()
    {
      hide Linked, SlotOk, Laminar, ParentsOk, SiblingsOk, PlacedBy;
      LinkedLaminar(n, s);
      LinkedParents(n, s);
      LinkedSiblings(n, s);
      forall q: Fold? | q == null || q in nodes ensures ListOk(q) {
        LinkedHead(n, s, q);
        LinkedCount(n, s, q);
      }
    }

    lemma SlotPlaces(s: Slot)
      requires Links() && SlotOk(s)
      ensures forall g :: g in nodes ==> PlacedBy(s, g)
    {
      hide Links;
      forall g | g in nodes ensures PlacedBy(s, g) {
        Innermost(s.p, s.from, s.to, g);
      }
    }

    ghost function Pointing(): Pointers
      reads this`folds, this`nFolds, this`nodes, nodes`parent, nodes`prev, nodes`next, nodes`children, nodes`nChildren
    {
      Pointers(folds, nFolds, map f | f in nodes :: f.parent, map f | f in nodes :: f.prev,
        map f | f in nodes :: f.next, map f | f in nodes :: f.children, map f | f in nodes :: f.nChildren)
    }

    /** The new fold n lies between two neighbours a and b. It has no folds and points to both; b points to it, but a
        still points to b. It is counted, and nothing else has changed. */
    ghost predicate LinkedBetween(n: Fold, was: Pointers)
      reads this`folds, this`nFolds, n, was.next.Keys, was.prev.Keys, was.parent.Keys, was.children.Keys,
        was.nChildren.Keys
    {
      var p, a, b := n.parent, n.prev, n.next;
      && n !in was.next && was.Has(a) && was.Has(b) && (p != null ==> was.Has(p))
      && was.next[a] == b && was.prev[b] == a && was.parent[a] == p
      && a.end < n.start && n.end < b.start && n.children == null && n.nChildren == 0 && !n.deleted
      && folds == was.folds && nFolds == (if p == null then was.nFolds + 1 else was.nFolds)
      && (forall g {:trigger g.next} :: g in was.next ==> g.next == was.next[g])
      && (forall g {:trigger g.prev} :: g in was.prev ==> g.prev == if g == b then n else was.prev[g])
      && (forall g {:trigger g.parent} :: g in was.parent ==> g.parent == was.parent[g])
      && (forall g {:trigger g.children} :: g in was.children ==> g.children == was.children[g])
      && (forall g {:trigger g.nChildren} :: g in was.nChildren ==>
        g.nChildren == if g == p then was.nChildren[g] + 1 else was.nChildren[g])
    }

    /** The new fold n has taken the place and the neighbours of the first fold within it, which is its only one.
        The next fold begins within n, but it stays outside with all behind it; nothing else has changed. */
    ghost predicate LinkedShort(n: Fold, was: Pointers)
      reads this`folds, this`nFolds, n, was.next.Keys, was.prev.Keys, was.parent.Keys, was.children.Keys,
        was.nChildren.Keys
    {
      var p, a, b, fold := n.parent, n.prev, n.next, n.children;
      && was.Has(fold) && was.next[fold] == b && was.prev[fold] == a && was.parent[fold] == p
      && Encloses(p, n.start, n.end) && Within(fold, n.start, n.end)
      && (a != null ==> was.Has(a) && a != fold && a.end < n.start) && b != null && b.start <= n.end
      && n.nChildren == 1 && nFolds == was.nFolds && folds == (if p == null && a == null then n else was.folds)
      && (forall g {:trigger g.next} :: g in was.next ==>
        g.next == if g == fold then null else if g == a then n else was.next[g])
      && (forall g {:trigger g.prev} :: g in was.prev ==>
        g.prev == if g == fold then null else if g == b then n else was.prev[g])
      && (forall g {:trigger g.parent} :: g in was.parent ==> g.parent == if g == fold then n else was.parent[g])
      && (forall g {:trigger g.children} :: g in was.children ==>
        g.children == if g == p && a == null then n else was.children[g])
      && (forall g {:trigger g.nChildren} :: g in was.nChildren ==> g.nChildren == was.nChildren[g])
    }

    twostate lemma SamePointers()
      requires nodes == old(nodes) && folds == old(folds) && nFolds == old(nFolds)
      requires forall f :: f in nodes ==> unchanged(f)
      ensures Pointing() == old(Pointing())
    {
    }

    twostate lemma Pointed()
      ensures var w := old(Pointing());
        && w.folds == old(folds) && w.nFolds == old(nFolds) && w.parent.Keys == w.prev.Keys == w.next.Keys == old(nodes)
        && w.children.Keys == w.nChildren.Keys == old(nodes)
        && (forall g {:trigger w.parent[g]} :: g in old(nodes) ==> w.parent[g] == old(g.parent))
        && (forall g {:trigger w.prev[g]} :: g in old(nodes) ==> w.prev[g] == old(g.prev))
        && (forall g {:trigger w.next[g]} :: g in old(nodes) ==> w.next[g] == old(g.next))
        && (forall g {:trigger w.children[g]} :: g in old(nodes) ==> w.children[g] == old(g.children))
        && (forall g {:trigger w.nChildren[g]} :: g in old(nodes) ==> w.nChildren[g] == old(g.nChildren))
    {
    }

    twostate lemma PointsBetween(new n: Fold, new a: Fold, new b: Fold)
      requires n !in old(nodes) && nodes == old(nodes) + {n} && n.children == null && n.nChildren == 0 && !n.deleted
      requires n.prev == a && a in old(nodes) && n.next == b && b in old(nodes) && a.end < n.start && n.end < b.start
      requires old(a.next) == b && old(b.prev) == a && old(a.parent) == n.parent
      requires n.parent == null || n.parent in old(nodes)
      requires folds == old(folds) && nFolds == if n.parent == null then old(nFolds) + 1 else old(nFolds)
      requires forall g {:trigger g.next} :: g in old(nodes) ==> g.next == old(g.next)
      requires forall g {:trigger g.prev} :: g in old(nodes) ==> g.prev == if g == b then n else old(g.prev)
      requires forall g {:trigger g.parent} :: g in old(nodes) ==> g.parent == old(g.parent)
      requires forall g {:trigger g.children} :: g in old(nodes) ==> g.children == old(g.children)
      requires forall g {:trigger g.nChildren} :: g in old(nodes) ==>
        g.nChildren == if g == n.parent then old(g.nChildren) + 1 else old(g.nChildren)
      ensures LinkedBetween(n, old(Pointing()))
    {
      hide Pointing;
      Pointed();
    }

    twostate lemma PointsAlone(new n: Fold, s: Slot)
      requires n !in old(nodes) && nodes == old(nodes) + {n} && n.children == null && n.nChildren == 0 && !n.deleted
      requires n.start == s.from && n.end == s.to && n.parent == s.p && n.prev == s.prev && n.next == s.next
      requires s.first == s.last == null && old(Wrapped(s.p, s.from, s.to)) == {}
      requires folds == if s.p == null && s.prev == null then n else old(folds)
      requires nFolds == if s.p == null then old(nFolds) + 1 else old(nFolds)
      requires forall g {:trigger g.deleted} :: g in old(nodes) ==> !g.deleted
      requires forall g {:trigger g.next} :: g in old(nodes) ==> g.next == if g == s.prev then n else old(g.next)
      requires forall g {:trigger g.prev} :: g in old(nodes) ==> g.prev == if g == s.next then n else old(g.prev)
      requires forall g {:trigger g.parent} :: g in old(nodes) ==> g.parent == old(g.parent)
      requires forall g {:trigger g.children} :: g in old(nodes) ==>
        g.children == if g == s.p && s.prev == null then n else old(g.children)
      requires forall g {:trigger g.nChildren} :: g in old(nodes) ==>
        g.nChildren == if g == s.p then old(g.nChildren) + 1 else old(g.nChildren)
      ensures Linked(n, s)
    {
      hide Wrapped;
    }

    twostate lemma PointsShort(new n: Fold, new fold: Fold, new s: Slot)
      requires n !in old(nodes) && nodes == old(nodes) + {n} && n.start == s.from && n.end == s.to
      requires n.parent == s.p && n.prev == s.prev && n.next == s.next && n.children == fold && n.nChildren == 1
      requires folds == (if s.p == null && s.prev == null then n else old(folds)) && nFolds == old(nFolds)
      requires forall g {:trigger g.parent} :: g in old(nodes) ==> g.parent == if g == fold then n else old(g.parent)
      requires forall g {:trigger g.children} :: g in old(nodes) ==>
        g.children == if g == s.p && s.prev == null then n else old(g.children)
      requires forall g {:trigger g.nChildren} :: g in old(nodes) ==> g.nChildren == old(g.nChildren)
      requires forall g {:trigger g.next} :: g in old(nodes) ==>
        g.next == if g == fold then null else if g == s.prev then n else old(g.next)
      requires forall g {:trigger g.prev} :: g in old(nodes) ==>
        g.prev == if g == fold then null else if g == s.next then n else old(g.prev)
      requires fold in old(nodes) && (s.p == null || s.p in old(nodes))
      requires s.prev != null ==> s.prev in old(nodes) && s.prev.end < s.from && s.prev != fold
      requires s.next != null && s.next in old(nodes) && s.next.start <= s.to && s.next != fold
      requires old(fold.next) == s.next && old(fold.prev) == s.prev && old(fold.parent) == s.p
      requires Within(fold, s.from, s.to) && Encloses(s.p, s.from, s.to)
      ensures LinkedShort(n, old(Pointing()))
    {
      hide Pointing;
      Pointed();
    }

    /** Links n in front of `at`, or at the end of the list whose last fold is `last`. Nothing makes a fold
        in front of `at` point to n. */
    method LinkNew(parent: Fold?, at: Fold?, last: Fold?, n: Fold, ghost s: Slot)
      requires Links() && SlotOk(s) && s.p == parent && s.next == at && s.first == null
      requires s.prev == if at != null then at.prev else last
      requires n !in nodes && n.start == s.from && n.end == s.to && !n.deleted
      requires n.parent == null && n.prev == null && n.next == null && n.children == null && n.nChildren == 0
      modifies this`folds, this`nFolds, this`nodes, n, nodes`prev, nodes`next, nodes`children, nodes`nChildren
      ensures nodes == old(nodes) + {n} && n.collapsed == old(n.collapsed) && n.children == null
      ensures Links() <==> at == null || s.prev == null
      ensures at != null && s.prev != null ==> LinkedBetween(n, old(Pointing()))
    {
      hide Links, SlotOk, LinkedBetween, Pointing, Linked, Wrapped, PlacedBy;
      SlotPlaces(s);
      SlotFacts(s);
      n.parent := parent;
      n.next := at;
      EnterParent(parent, at, n);
      EnterList(at, last, n);
      nodes := nodes + {n};
      if at == null || s.prev == null {
        PointsAlone(n, s);
        LinkedLinks(n, s);
      } else {
        NotSuccessor(s.prev, n);
        PointsBetween(n, s.prev, at);
      }
    }

    /** The new fold comes in front of `at`, or behind the last one; what is in front of `at` does not point to it. */
    method EnterList(at: Fold?, last: Fold?, n: Fold)
      requires (if at != null then at in nodes else last != null ==> last in nodes) && n !in nodes && n.prev == null
      modifies n`prev, nodes`prev, nodes`next
      ensures n.prev == if at != null then old(at.prev) else last
      ensures forall g {:trigger g.next} :: g in nodes ==> g.next == if at == null && g == last then n else old(g.next)
      ensures forall g {:trigger g.prev} :: g in nodes ==> g.prev == if g == at then n else old(g.prev)
    {
      if at != null {
        if at.prev != null {
          n.prev := at.prev;
        }
        at.prev := n;
      } else if last != null {
        last.next := n;
        n.prev := last;
      }
    }

    /** One more fold below parent, the first one if it comes in front of the first. */
    method EnterParent(parent: Fold?, at: Fold?, n: Fold)
      requires parent == null || parent in nodes
      modifies this`folds, this`nFolds, nodes`children, nodes`nChildren
      ensures folds == if parent == null && at == old(folds) then n else old(folds)
      ensures nFolds == if parent == null then old(nFolds) + 1 else old(nFolds)
      ensures forall g :: g in nodes ==>
        && g.children == (if g == parent && at == old(g.children) then n else old(g.children))
        && g.nChildren == (if g == parent then old(g.nChildren) + 1 else old(g.nChildren))
    {
      if parent != null {
        if at == parent.children {
          parent.children := n;
        }
        parent.nChildren := parent.nChildren + 1;
      } else {
        if at == folds {
          folds := n;
        }
        nFolds := nFolds + 1;
      }
    }

    /** What a slot says about the ends of the list. */
    lemma SlotFacts(s: Slot)
      requires Links() && SlotOk(s)
      ensures s.p != null ==> s.p in nodes && s.p != s.prev && s.p != s.next
      ensures s.prev != null ==> s.prev in nodes && s.prev != s.next && s.prev.start < s.from && s.prev.parent == s.p
      ensures s.prev != null ==> s.prev.end < s.from
      ensures s.next != null ==> s.next in nodes && s.from < s.next.start && s.to < s.next.start
      ensures s.first == null <==> s.last == null
      ensures s.first == null ==> Wrapped(s.p, s.from, s.to) == {}
      ensures s.first == null ==> (s.next == Head(s.p) <==> s.prev == null)
      ensures s.first == null && s.prev != null ==> s.prev.next == s.next
      ensures forall g :: g in nodes ==> !g.deleted
    {
      assert ListOk(s.p);
      var head := Head(s.p);
      assert head != null && s.next != null ==> Nested(head, s.next);
      if s.prev != null {
        assert s.prev.parent == s.p;
        var x := s.prev.next;
        assert x != null ==> x.parent == s.p;
        assert x != null && s.next != null ==> Nested(x, s.next);
      }
    }

    lemma NotSuccessor(f: Fold, n: Fold)
      requires f in nodes && n in nodes && f.parent == n.parent && f.start < n.start
      requires f.next == null || n.start < f.next.start
      ensures !Links()
    {
    }

    /** n takes the neighbours of fold. */
    method TakePlace(fold: Fold, n: Fold)
      requires fold in nodes && n !in nodes && n.prev == null && n.next == null
      requires fold.prev != null ==> fold.prev in nodes && fold.prev != fold && fold.prev != fold.next
      requires fold.next != null ==> fold.next in nodes && fold.next != fold
      modifies n`prev, n`next, nodes`prev, nodes`next
      ensures n.prev == old(fold.prev) && n.next == old(fold.next)
      ensures forall g {:trigger g.next} :: g in nodes ==>
        g.next == (if g == fold then null else if g == old(fold.prev) then n else old(g.next))
      ensures forall g {:trigger g.prev} :: g in nodes ==>
        g.prev == (if g == fold then null else if g == old(fold.next) then n else old(g.prev))
    {
      if fold.next != null {
        fold.next.prev := n;
        n.next := fold.next;
        fold.next := null;
      }
      if fold.prev != null {
        fold.prev.next := n;
        n.prev := fold.prev;
        fold.prev := null;
      }
    }

    /** Puts n in the place of fold and fold inside n. Folds behind fold stay where they are. */
    method WrapOne(parent: Fold?, fold: Fold, n: Fold)
      requires Links() && fold in nodes && fold.parent == parent && Encloses(parent, n.start, n.end)
      requires 0 <= n.start < n.end < lineCount && Within(fold, n.start, n.end)
      requires fold.prev != null ==> fold.prev.end < n.start
      requires n !in nodes && !n.deleted
      requires n.parent == null && n.prev == null && n.next == null && n.children == null && n.nChildren == 0
      modifies this`folds, this`nodes, n, nodes`parent, nodes`prev, nodes`next, nodes`children
      ensures nodes == old(nodes) + {n} && n.collapsed == old(n.collapsed) && n.children == fold
      ensures Links() <==> old(fold.next) == null || n.end < old(fold.next).start
      ensures old(fold.next) != null && old(fold.next).start <= n.end ==> LinkedShort(n, old(Pointing()))
    {
      hide Links, SlotOk, Linked, PlacedBy, Wrapped, LinkedShort, Pointing;
      ghost var s := Slot(n.start, n.end, parent, fold.prev, fold.next, fold, fold);
      WrapFacts(parent, fold, s);
      MoveInto(parent, fold, n, s);
      if s.next == null || n.end < s.next.start {
        LinkedOne(n, fold, s);
        LinkedLinks(n, s);
      } else {
        NotInnermost(s.next, n);
        PointsShort(n, fold, s);
      }
    }

    /** The new fold n is linked as the slot says and has one child. */
    twostate predicate LinkedAround(new n: Fold, new fold: Fold, s: Slot)
      reads this`folds, this`nodes, nodes`parent, nodes`next, nodes`prev, nodes`children, nodes`nChildren, nodes`deleted
    {
      && n !in old(nodes) && nodes == old(nodes) + {n} && !n.deleted && n.start == s.from && n.end == s.to
      && n.parent == s.p && n.prev == s.prev && n.next == s.next && n.children == fold && n.nChildren == 1
      && folds == (if s.p == null && s.prev == null then n else old(folds))
      && (forall g {:trigger g.deleted} :: g in old(nodes) ==> !g.deleted)
      && (forall g {:trigger g.parent} :: g in old(nodes) ==> g.parent == (if g == fold then n else old(g.parent)))
      && (forall g {:trigger g.children} :: g in old(nodes) ==>
        g.children == (if g == s.p && s.prev == null then n else old(g.children)))
      && (forall g {:trigger g.nChildren} :: g in old(nodes) ==> g.nChildren == old(g.nChildren))
      && (forall g {:trigger g.next} :: g in old(nodes) ==>
        g.next == (if g == fold then null else if g == s.prev then n else old(g.next)))
      && (forall g {:trigger g.prev} :: g in old(nodes) ==>
        g.prev == (if g == fold then null else if g == s.next then n else old(g.prev)))
    }

    twostate lemma LinkedOne(new n: Fold, new fold: Fold, s: Slot)
      requires LinkedAround(n, fold, s) && nFolds == old(nFolds) && s.first == s.last == fold
      requires old(Wrapped(s.p, s.from, s.to)) == {fold}
      ensures Linked(n, s)
    {
      hide Wrapped;
    }

    /** The pointer part of putting n around fold. */
    method MoveInto(parent: Fold?, fold: Fold, n: Fold, ghost s: Slot)
      requires fold in nodes && n !in nodes && !n.deleted && n.prev == null && n.next == null
      requires s == Slot(n.start, n.end, parent, fold.prev, fold.next, fold, fold)
      requires parent != null ==> parent in nodes && parent != fold
      requires fold.prev != null ==> fold.prev in nodes && fold.prev != fold && fold.prev != fold.next
      requires fold.next != null ==> fold.next in nodes && fold.next != fold
      requires Head(parent) != null && (Head(parent) == fold <==> fold.prev == null)
      requires forall g :: g in nodes ==> !g.deleted
      modifies this`folds, this`nodes, n, nodes`parent, nodes`prev, nodes`next, nodes`children
      ensures LinkedAround(n, fold, s) && n.collapsed == old(n.collapsed)
    {
      ReplaceFirst(parent, fold, n);
      n.parent := parent;
      fold.parent := n;
      n.children := fold;
      n.nChildren := 1;
      TakePlace(fold, n);
      nodes := nodes + {n};
    }

    /** The list of folds below parent begins with n if it is empty or begins with fold. */
    method ReplaceFirst(parent: Fold?, fold: Fold, n: Fold)
      requires parent == null || parent in nodes
      modifies this`folds, nodes`children
      ensures folds == if parent == null && (old(folds) == null || fold == old(folds)) then n else old(folds)
      ensures forall g :: g in nodes ==>
        g.children == if g == parent && (old(g.children) == null || fold == old(g.children)) then n else old(g.children)
    {
      if parent != null {
        if parent.children == null || fold == parent.children {
          parent.children := n;
        }
      } else {
        if folds == null || fold == folds {
          folds := n;
        }
      }
    }

    lemma WrapSlot(fold: Fold, s: Slot)
      requires Links() && fold in nodes && Encloses(fold.parent, s.from, s.to) && 0 <= s.from < s.to < lineCount
      requires s == Slot(s.from, s.to, fold.parent, fold.prev, fold.next, fold, fold)
      requires Within(fold, s.from, s.to)
      requires fold.prev != null ==> fold.prev.end < s.from
      requires fold.next != null ==> s.to < fold.next.start
      ensures SlotOk(s) && Wrapped(s.p, s.from, s.to) == {fold}
    {
      hide Links;
      Around(fold);
      forall k | k in nodes && k.parent == s.p ensures k == fold
        || (k.end < s.from && s.prev != null && k.start <= s.prev.start)
        || (s.to < k.start && s.next != null && s.next.start <= k.start)
      {
        if k != fold {
          Neighbours(fold, k);
        }
      }
      forall k | k in nodes ensures k.start < k.end {
        Around(k);
      }
    }

    lemma WrapFacts(parent: Fold?, fold: Fold, s: Slot)
      requires Links() && fold in nodes && fold.parent == parent && Encloses(parent, s.from, s.to) &&
        0 <= s.from < s.to < lineCount
      requires s == Slot(s.from, s.to, parent, fold.prev, fold.next, fold, fold)
      requires Within(fold, s.from, s.to) && (fold.prev != null ==> fold.prev.end < s.from)
      ensures parent != null ==> parent in nodes && parent != fold.prev && parent != fold.next && parent != fold
      ensures fold.prev != null ==> fold.prev in nodes && fold.prev != fold.next && fold.prev != fold
      ensures fold.next != null ==>
        fold.next in nodes && fold.next.parent == parent && fold.next != fold && s.from < fold.next.start
      ensures Head(parent) != null && (Head(parent) == fold <==> fold.prev == null)
      ensures fold.next == null || s.to < fold.next.start ==>
        SlotOk(s) && Wrapped(parent, s.from, s.to) == {fold} && forall g :: g in nodes ==> PlacedBy(s, g)
      ensures forall g :: g in nodes ==> !g.deleted
    {
      hide Links, SlotOk, PlacedBy, Wrapped;
      SpliceFacts(fold, Kids(fold));
      Around(fold);
      HeadExists(fold);
      if fold.next == null || s.to < fold.next.start {
        WrapSlot(fold, s);
        SlotPlaces(s);
      }
    }

    lemma HeadExists(f: Fold)
      requires Links() && f in nodes
      ensures Head(f.parent) != null
    {
      assert ListOk(f.parent);
    }

    /** Every other fold of the list is at or before prev, or at or after next. */
    lemma Neighbours(f: Fold, k: Fold)
      requires Links() && f in nodes && k in nodes && k.parent == f.parent && k != f
      ensures (f.prev != null && k.start <= f.prev.start && k.end <= f.prev.end) ||
        (f.next != null && f.next.start <= k.start)
    {
      SiblingsApart(f, k);
      assert f.prev != null && f.prev != k ==> Nested(f.prev, k) && k.parent == f.prev.parent;
      if f.prev != null && f.prev != k {
        SiblingsApart(f.prev, k);
      }
    }

    lemma NotInnermost(f: Fold, n: Fold)
      requires f in nodes && n in nodes && f.parent == n.parent && n.start < f.start <= n.end
      ensures !Links()
    {
      assert Nested(f, n) ==> Inside(f, n);
    }

    /** Scanning has passed every fold of the list that ends before the range. */
    ghost predicate Scanned(parent: Fold?, at: Fold?, last: Fold?, first: int)
      reads this`nodes, nodes`parent, nodes`next
    {
      && (at != null ==> at in nodes && at.parent == parent)
      && (forall k {:trigger k.parent} :: k in nodes && k.parent == parent && (at == null || k.start < at.start) ==>
        k.end < first)
      && (at == null && last == null ==> forall k :: k in nodes ==> k.parent != parent)
      && (at == null && last != null ==> last in nodes && last.parent == parent && last.next == null)
    }

    /** Adds a fold under parent, as the code does it. The two conditions under which the tree comes out
        broken are a range between two neighbours and a range that reaches a second fold of its list. */
    method InsertFold(parent: Fold?, firstLine: int, lastLine: int) returns (r: Fold?)
      requires Valid() && (parent != null ==> parent in nodes) && Encloses(parent, firstLine, lastLine)
      requires 0 <= firstLine < lastLine < lineCount
      modifies this`folds, this`nFolds, this`nodes, nodes`parent, nodes`prev, nodes`next, nodes`children,
        nodes`nChildren
      ensures r == null ==> Valid() && nodes == old(nodes) && exists f :: f in nodes && Crosses(f, firstLine, lastLine)
      ensures r == null ==> unchanged(this) && forall f :: f in nodes ==> unchanged(f)
      ensures r != null ==>
        fresh(r) && nodes == old(nodes) + {r} && r.start == firstLine && r.end == lastLine && !r.collapsed
      ensures r != null ==>
        (Valid() <==> !old(MiddleGap(firstLine, lastLine)) && !old(ReachesTwo(firstLine, lastLine)))
      ensures r != null && !Valid() ==>
        if r.children == null then LinkedBetween(r, old(Pointing())) else LinkedShort(r, old(Pointing()))
      decreases lineCount - if parent == null then -1 else parent.start
    {
      hide Links, MiddleGap, ReachesTwo, LinkedBetween, LinkedShort, Pointing;
      ScannedNone(parent, firstLine);
      var last: Fold? := null;
      var fold := if parent != null then parent.children else folds;
      while fold != null
        invariant Scanned(parent, fold, last, firstLine)
        invariant unchanged(this) && forall f :: f in nodes ==> unchanged(f)
        decreases if fold == null then -1 else lineCount - fold.start
      {
        Around(fold);
        OneStart(fold);
        if fold.next == null {
          last := fold;
        }
        if fold.end < firstLine {
          fold := fold.next;
          if fold != null {
            Around(fold);
          }
          continue;
        }
        if fold.start > lastLine {
          break;
        }
        if fold.start == firstLine || fold.end == firstLine || fold.start == lastLine {
          assert Crosses(fold, firstLine, lastLine);
          return null;
        }
        if fold.start < firstLine {
          if fold.end < lastLine {
            assert Crosses(fold, firstLine, lastLine);
            return null;
          }
          SamePointers();
          r := InsertFold(fold, firstLine, lastLine);
          return;
        } else {
          if fold.end > lastLine {
            assert Crosses(fold, firstLine, lastLine);
            return null;
          }
          r := new Fold(firstLine, lastLine);
          WrapWhen(parent, fold, firstLine, lastLine);
          SamePointers();
          WrapOne(parent, fold, r);
          return;
        }
      }
      r := new Fold(firstLine, lastLine);
      ghost var s := Slot(firstLine, lastLine, parent, if fold != null then fold.prev else last, fold, null, null);
      NewWhen(s, last);
      SamePointers();
      LinkNew(parent, fold, last, r, s);
    }

    lemma ScannedNone(parent: Fold?, first: int)
      requires Links() && (parent == null || parent in nodes)
      ensures Scanned(parent, Head(parent), null, first)
    {
      assert ListOk(parent);
    }

    lemma WrapWhen(parent: Fold?, fold: Fold, first: int, last: int)
      requires Links() && fold in nodes && fold.parent == parent && Encloses(parent, first, last) &&
        0 <= first < last < lineCount
      requires Within(fold, first, last) && Scanned(parent, fold, null, first)
      ensures fold.prev != null ==> fold.prev.end < first
      ensures (fold.next == null || last < fold.next.start) <==> !MiddleGap(first, last) && !ReachesTwo(first, last)
    {
      assert fold.prev != null ==> fold.prev.parent == parent;
      if fold.next != null && fold.next.start <= last {
        assert ReachesTwo(first, last);
      } else {
        var s := Slot(first, last, parent, fold.prev, fold.next, fold, fold);
        WrapSlot(fold, s);
        SlotAlone(s);
      }
    }

    /** In a slot that takes in at most one fold, nothing reaches a second one; a gap is the gap of the slot. */
    lemma SlotAlone(s: Slot)
      requires Links() && SlotOk(s) && s.first == s.last
      ensures !ReachesTwo(s.from, s.to)
      ensures MiddleGap(s.from, s.to) ==> s.first == null && s.prev != null && s.next != null
    {
      hide Links;
      forall a | a in nodes && a.next != null && Encloses(a.parent, s.from, s.to) && s.from < a.start &&
        a.next.start <= s.to
        ensures false
      {
        Around(a);
        Around(a.next);
        OneStart(a);
        ReachParent(s.p, s.from, s.to, a);
      }
      forall a | a in nodes && a.next != null && a.end < s.from && s.to < a.next.start
        ensures s.first == null && s.prev != null && s.next != null
      {
        GapParent(s.p, s.from, s.to, a);
        Around(a);
        Around(a.next);
        OneStart(a);
        if s.first != null {
          Around(s.first);
        }
      }
    }

    lemma NewSlot(s: Slot, last: Fold?)
      requires Links() && Scanned(s.p, s.next, last, s.from) && (s.p != null ==> s.p in nodes) &&
        Encloses(s.p, s.from, s.to)
      requires 0 <= s.from < s.to < lineCount && s.first == null && s.last == null
      requires s.prev == (if s.next != null then s.next.prev else last) && (s.next != null ==> s.to < s.next.start)
      ensures SlotOk(s)
    {
      hide ParentsOk;
      if s.prev != null {
        assert s.prev.parent == s.p;
        forall k | k in nodes && k.parent == s.p && k.start > s.prev.start
          ensures s.next != null && s.next.start <= k.start
        {
          if s.next != null && k != s.next {
            Neighbours(s.next, k);
          }
        }
      }
    }

    lemma NewWhen(s: Slot, last: Fold?)
      requires Links() && Scanned(s.p, s.next, last, s.from) && (s.p != null ==> s.p in nodes) &&
        Encloses(s.p, s.from, s.to)
      requires 0 <= s.from < s.to < lineCount && s.first == null && s.last == null
      requires s.prev == (if s.next != null then s.next.prev else last) && (s.next != null ==> s.to < s.next.start)
      ensures SlotOk(s)
      ensures s.next == null || s.prev == null <==> !MiddleGap(s.from, s.to) && !ReachesTwo(s.from, s.to)
    {
      hide Links;
      NewSlot(s, last);
      SlotAlone(s);
      if s.next != null && s.prev != null {
        Around(s.next);
        assert MiddleGap(s.from, s.to);
      }
    }

    method Add(firstLine: int, lastLine: int) returns (r: Fold?)
      requires Valid() && 0 <= firstLine < lastLine < lineCount
      modifies this`folds, this`nFolds, this`nodes, nodes`parent, nodes`prev, nodes`next, nodes`children,
        nodes`nChildren
      ensures r == null ==> Valid() && nodes == old(nodes) && exists f :: f in nodes && Crosses(f, firstLine, lastLine)
      ensures r == null ==> unchanged(this) && forall f :: f in nodes ==> unchanged(f)
      ensures r != null ==> fresh(r) && nodes == old(nodes) + {r} && r.start == firstLine && r.end == lastLine
      ensures r != null ==>
        (Valid() <==> !old(MiddleGap(firstLine, lastLine)) && !old(ReachesTwo(firstLine, lastLine)))
      ensures r != null && !Valid() ==>
        if r.children == null then LinkedBetween(r, old(Pointing())) else LinkedShort(r, old(Pointing()))
      ensures Collapsed() == old(Collapsed()) && (old(Exact()) ==> Exact()) && (old(Justified()) ==> Justified())
    {
      hide Links, Valid, MiddleGap, ReachesTwo, LinkedBetween, LinkedShort, Pointing;
      r := InsertFold(null, firstLine, lastLine);
      assert Collapsed() == old(Collapsed());
    }

    /** What adding a fold between two others lacks is one assignment: with that, only a range that reaches a second
        fold leaves a broken tree. */
    method AddMended(firstLine: int, lastLine: int) returns (r: Fold?)
      requires Valid() && 0 <= firstLine < lastLine < lineCount
      modifies this`folds, this`nFolds, this`nodes, nodes`parent, nodes`prev, nodes`next, nodes`children,
        nodes`nChildren
      ensures r == null ==> Valid() && nodes == old(nodes) && exists f :: f in nodes && Crosses(f, firstLine, lastLine)
      ensures r != null ==> fresh(r) && nodes == old(nodes) + {r} && r.start == firstLine && r.end == lastLine
      ensures r != null ==> (Valid() <==> !old(ReachesTwo(firstLine, lastLine)))
    {
      hide Links, MiddleGap, ReachesTwo, SlotOk, PlacedBy, Wrapped, Pointing, LinkedShort, LinkedBetween;
      forall a | a in nodes && a.next != null && a.end < firstLine && lastLine < a.next.start
        ensures Between(Slot(firstLine, lastLine, a.parent, a, a.next, null, null))
      {
        GapSlot(Slot(firstLine, lastLine, a.parent, a, a.next, null, null));
      }
      r := InsertFold(null, firstLine, lastLine);
      if r == null {
        return;
      }
      if Valid() {
        Around(r);
      } else if r.children == null {
        BetweenIs(r);
      } else {
        ShortReaches(r, firstLine, lastLine);
      }
      if r.prev != null && r.prev.next != r {
        ghost var s := Slot(firstLine, lastLine, r.parent, r.prev, r.next, null, null);
        assert old(Between(s));
        r.prev.next := r;
        BetweenLinks(r, s);
      }
    }

    twostate lemma BetweenIs(new n: Fold)
      requires LinkedBetween(n, old(Pointing()))
      ensures var a, b, p := n.prev, n.next, n.parent;
        && a != null && a in old(nodes) && a.next != n && a.end < n.start && b == old(a.next) && p == old(a.parent)
        && b != null && b in old(nodes) && n.end < b.start && (p == null || p in old(nodes))
      ensures n.children == null && n.nChildren == 0 && !n.deleted
      ensures folds == old(folds) && nFolds == if n.parent == null then old(nFolds) + 1 else old(nFolds)
      ensures forall g {:trigger g.next} :: g in old(nodes) ==> g.next == old(g.next)
      ensures forall g {:trigger g.prev} :: g in old(nodes) ==> g.prev == if g == n.next then n else old(g.prev)
      ensures forall g {:trigger g.parent} :: g in old(nodes) ==> g.parent == old(g.parent)
      ensures forall g {:trigger g.children} :: g in old(nodes) ==> g.children == old(g.children)
      ensures forall g {:trigger g.nChildren} :: g in old(nodes) ==>
        g.nChildren == if g == n.parent then old(g.nChildren) + 1 else old(g.nChildren)
    {
      hide Pointing;
      Pointed();
    }

    twostate lemma BetweenLinks(new n: Fold, s: Slot)
      requires old(Links()) && old(Between(s)) && s.prev != null
      requires n !in old(nodes) && nodes == old(nodes) + {n} && n.children == null && n.nChildren == 0 && !n.deleted
      requires n.start == s.from && n.end == s.to && n.parent == s.p && n.prev == s.prev && n.next == s.next
      requires s.first == s.last == null && folds == old(folds)
      requires nFolds == if s.p == null then old(nFolds) + 1 else old(nFolds)
      requires forall g {:trigger g.deleted} :: g in old(nodes) ==> g.deleted == old(g.deleted)
      requires forall g {:trigger g.next} :: g in old(nodes) ==> g.next == if g == s.prev then n else old(g.next)
      requires forall g {:trigger g.prev} :: g in old(nodes) ==> g.prev == if g == s.next then n else old(g.prev)
      requires forall g {:trigger g.parent} :: g in old(nodes) ==> g.parent == old(g.parent)
      requires forall g {:trigger g.children} :: g in old(nodes) ==> g.children == old(g.children)
      requires forall g {:trigger g.nChildren} :: g in old(nodes) ==>
        g.nChildren == if g == s.p then old(g.nChildren) + 1 else old(g.nChildren)
      ensures Links()
    {
      hide SlotOk, Wrapped, PlacedBy, Linked, SiblingsOk, ListOk, Laminar;
      PointsAlone(n, s);
      LinkedLinks(n, s);
    }

    twostate lemma ShortReaches(new n: Fold, new first: int, new last: int)
      requires LinkedShort(n, old(Pointing())) && n.start == first && n.end == last
      ensures old(ReachesTwo(first, last)) && (n.prev != null ==> n.prev.next == n)
    {
      hide Pointing;
      Pointed();
      var fold := n.children;
      assert fold in old(nodes) && old(fold.next) == n.next && old(fold.parent) == n.parent;
    }

    /** A slot between two neighbours, in which nothing reaches a second fold. */
    ghost predicate Between(s: Slot)
      reads this`nodes, nodes`parent, nodes`next
    {
      && SlotOk(s) && Wrapped(s.p, s.from, s.to) == {} && !ReachesTwo(s.from, s.to)
      && forall g :: g in nodes ==> PlacedBy(s, g)
    }

    lemma GapSlot(s: Slot)
      requires Links() && s.first == s.last == null && s.prev != null && s.prev in nodes && s.next == s.prev.next
      requires s.next != null && s.p == s.prev.parent && 0 <= s.from < s.to
      requires s.prev.end < s.from && s.to < s.next.start
      ensures Between(s)
    {
      hide Links, PlacedBy;
      Around(s.prev);
      Around(s.next);
      if s.p != null {
        Around(s.p);
      }
      forall k | k in nodes && k.parent == s.p && k.start < s.next.start ensures k.end < s.from {
        if k != s.prev {
          Neighbours(s.next, k);
        }
      }
      NewSlot(s, null);
      SlotFacts(s);
      SlotPlaces(s);
      SlotAlone(s);
    }

    // ----- inserting a fold, as meant

    /** The folds a slot takes in, from its first to its last by their next links. */
    lemma SlotChain(s: Slot)
      requires Links() && SlotOk(s) && s.first != null
      ensures Chain(Wrapped(s.p, s.from, s.to), s.first, s.last)
    {
      hide Links, ChainLink;
      var kids := Wrapped(s.p, s.from, s.to);
      forall k | k in kids ensures ChainLink(kids, s.first, s.last, k) {
        SlotLink(s, k);
      }
    }

    lemma SlotLink(s: Slot, k: Fold)
      requires Links() && SlotOk(s) && s.first != null && k in Wrapped(s.p, s.from, s.to)
      ensures ChainLink(Wrapped(s.p, s.from, s.to), s.first, s.last, k)
    {
      hide Links;
      Around(s.last);
      Around(k);
      OneStart(k);
      if k.next != null {
        Around(k.next);
      }
    }

    ghost predicate ChainLink(kids: set<Fold>, first: Fold, last: Fold, k: Fold)
      reads k`next
    {
      && 0 <= k.start < lineCount && first.start <= k.start <= last.start
      && (k != last ==> k.next != null && k.next in kids && k.start < k.next.start)
      && forall g :: g in kids ==> g == k || g.start < k.start || (k.next != null && k.next.start <= g.start)
    }

    ghost predicate Chain(kids: set<Fold>, first: Fold, last: Fold)
      reads kids`next
    {
      first in kids && last in kids && forall k :: k in kids ==> ChainLink(kids, first, last, k)
    }

    lemma ChainAt(kids: set<Fold>, first: Fold, last: Fold, k: Fold)
      requires Chain(kids, first, last) && k in kids
      ensures 0 <= k.start < lineCount && first.start <= k.start <= last.start && first in kids && last in kids
      ensures k != last ==> k.next != null && k.next in kids && k.start < k.next.start
      ensures kids == ChainUpTo(kids, k) + if k == last then {} else set g | g in kids && k.next.start <= g.start
      ensures k != last ==> ChainUpTo(kids, k) == ChainBefore(kids, k.next)
      ensures ChainUpTo(kids, k) == ChainBefore(kids, k) + {k} && k !in ChainBefore(kids, k)
      ensures ChainBefore(kids, first) == {}
    {
    }

    ghost function ChainBefore(kids: set<Fold>, k: Fold): set<Fold> {
      set g | g in kids && g.start < k.start
    }

    ghost function ChainUpTo(kids: set<Fold>, k: Fold): set<Fold> {
      set g | g in kids && g.start <= k.start
    }

    /** The folds from first to last become children of n. */
    method Adopt(n: Fold, first: Fold, last: Fold, ghost kids: set<Fold>) returns (count: int)
      requires Chain(kids, first, last)
      modifies kids`parent
      ensures count == |kids| && forall g :: g in kids ==> g.parent == n
    {
      hide Chain, ChainBefore, ChainUpTo;
      var k := first;
      ghost var done := {};
      count := 0;
      ChainFirst(kids, first, last);
      while true
        invariant k in kids && count == |done| && done == ChainBefore(kids, k)
        invariant forall g :: g in done ==> g in kids && g.parent == n
        decreases lineCount - k.start
      {
        ChainAt(kids, first, last, k);
        k.parent := n;
        count := count + 1;
        done := done + {k};
        if k == last {
          break;
        }
        k := k.next;
      }
    }

    lemma ChainFirst(kids: set<Fold>, first: Fold, last: Fold)
      requires Chain(kids, first, last)
      ensures first in kids && ChainBefore(kids, first) == {}
    {
    }

    /** n comes between the neighbours of its slot; the folds the slot takes in are cut out. */
    method WeaveIn(n: Fold, s: Slot, count: int)
      requires n !in nodes && (s.prev != null ==> s.prev in nodes) && (s.next != null ==> s.next in nodes)
      requires (s.first == null <==> s.last == null)
      requires s.first != null ==> s.first in nodes && s.last in nodes && s.first != s.next && s.last != s.prev
      modifies n`parent, n`prev, n`next, n`children, n`nChildren, nodes`prev, nodes`next
      ensures n.parent == s.p && n.prev == s.prev && n.next == s.next && n.children == s.first && n.nChildren == count
      ensures forall g {:trigger g.next} :: g in nodes ==>
        g.next == (if g == s.last then null else if g == s.prev then n else old(g.next))
      ensures forall g {:trigger g.prev} :: g in nodes ==>
        g.prev == (if g == s.first then null else if g == s.next then n else old(g.prev))
    {
      n.parent, n.prev, n.next := s.p, s.prev, s.next;
      n.children, n.nChildren := s.first, count;
      if s.first != null {
        s.first.prev := null;
        s.last.next := null;
      }
      if s.prev != null {
        s.prev.next := n;
      }
      if s.next != null {
        s.next.prev := n;
      }
    }

    /** The list of folds below parent gets longer by delta, and a new first fold if head says so. */
    method EnterHead(parent: Fold?, n: Fold, head: bool, delta: int)
      requires parent == null || parent in nodes
      modifies this`folds, this`nFolds, nodes`children, nodes`nChildren
      ensures folds == if parent == null && head then n else old(folds)
      ensures nFolds == if parent == null then old(nFolds) + delta else old(nFolds)
      ensures forall g {:trigger g.children} :: g in nodes ==>
        g.children == if g == parent && head then n else old(g.children)
      ensures forall g {:trigger g.nChildren} :: g in nodes ==>
        g.nChildren == if g == parent then old(g.nChildren) + delta else old(g.nChildren)
    {
      if parent != null {
        if head {
          parent.children := n;
        }
        parent.nChildren := parent.nChildren + delta;
      } else {
        if head {
          folds := n;
        }
        nFolds := nFolds + delta;
      }
    }

    /** Links n into its slot. */
    method LinkSlot(n: Fold, s: Slot)
      requires Links() && SlotOk(s) && n !in nodes && n.start == s.from && n.end == s.to && !n.deleted
      modifies this`folds, this`nFolds, this`nodes, n, nodes`parent, nodes`prev, nodes`next, nodes`children,
        nodes`nChildren
      ensures Links() && nodes == old(nodes) + {n} && n.collapsed == old(n.collapsed)
    {
      hide Links, SlotOk, Linked, PlacedBy, Wrapped;
      SlotPlaces(s);
      EnterSlot(n, s);
      LinkedLinks(n, s);
    }

    /** The pointer part of linking n into its slot. */
    method EnterSlot(n: Fold, s: Slot)
      requires Links() && SlotOk(s) && n !in nodes && n.start == s.from && n.end == s.to && !n.deleted
      modifies this`folds, this`nFolds, this`nodes, n, nodes`parent, nodes`prev, nodes`next, nodes`children,
        nodes`nChildren
      ensures Linked(n, s) && nodes == old(nodes) + {n} && n.collapsed == old(n.collapsed)
    {
      hide Links, SlotOk, Wrapped;
      SlotFacts(s);
      WrappedIn(s);
      var count := AdoptAll(n, s);
      WeaveIn(n, s, count);
      EnterHead(s.p, n, s.prev == null, 1 - count);
      nodes := nodes + {n};
    }

    method AdoptAll(n: Fold, s: Slot) returns (count: int)
      requires Links() && SlotOk(s) && n !in nodes
      modifies nodes`parent
      ensures count == |old(Wrapped(s.p, s.from, s.to))|
      ensures forall g {:trigger g.parent} :: g in nodes ==>
        g.parent == if g in old(Wrapped(s.p, s.from, s.to)) then n else old(g.parent)
    {
      hide Links, SlotOk, Chain, Wrapped;
      ghost var kids := Wrapped(s.p, s.from, s.to);
      SlotFacts(s);
      WrappedIn(s);
      count := 0;
      if s.first != null {
        SlotChain(s);
        count := Adopt(n, s.first, s.last, kids);
      }
    }

    lemma WrappedIn(s: Slot)
      requires Links() && SlotOk(s)
      ensures Wrapped(s.p, s.from, s.to) <= nodes
      ensures s.first != null ==> s.first in nodes && s.last in nodes && s.first != s.next && s.last != s.prev
    {
      hide Links;
      if s.first != null {
        Around(s.first);
        Around(s.last);
      }
    }

    /** In a well-formed tree no two folds cross, so an insertion that keeps it well-formed had no fold in its way. */
    lemma NoneCrosses(r: Fold)
      requires Links() && r in nodes
      ensures forall f :: f in nodes && f != r ==> !Crosses(f, r.start, r.end)
    {
      forall f | f in nodes && f != r ensures !Crosses(f, r.start, r.end) {
        assert Nested(f, r);
      }
    }

    /** The slot of a range that takes in the folds from `fold` to `kid`. */
    lemma WideSlot(fold: Fold, kid: Fold, s: Slot)
      requires Links() && fold in nodes && kid in nodes && fold.parent == kid.parent == s.p &&
        Encloses(s.p, s.from, s.to)
      requires 0 <= s.from < s.to < lineCount && Within(fold, s.from, s.to) && Within(kid, s.from, s.to) &&
        fold.start <= kid.start
      requires s == Slot(s.from, s.to, fold.parent, fold.prev, kid.next, fold, kid)
      requires Scanned(s.p, fold, null, s.from) && (kid.next != null ==> s.to < kid.next.start)
      ensures SlotOk(s)
    {
      hide Links;
      Around(fold);
      Around(kid);
      forall k | k in nodes && k.parent == s.p ensures
        || (k.end < s.from && s.prev != null && k.start <= s.prev.start)
        || (s.to < k.start && s.next != null && s.next.start <= k.start)
        || (Within(k, s.from, s.to) && fold.start <= k.start <= kid.start)
      {
        WidePlace(fold, kid, s.from, s.to, k);
      }
      if fold.prev != null {
        Around(fold.prev);
      }
    }

    lemma WidePlace(fold: Fold, kid: Fold, first: int, last: int, k: Fold)
      requires Links() && fold in nodes && kid in nodes && fold.parent == kid.parent && first < last
      requires Within(fold, first, last) && Within(kid, first, last) && fold.start <= kid.start
      requires Scanned(fold.parent, fold, null, first) && (kid.next != null ==> last < kid.next.start)
      requires k in nodes && k.parent == fold.parent
      ensures
        || (k.end < first && fold.prev != null && k.start <= fold.prev.start)
        || (last < k.start && kid.next != null && kid.next.start <= k.start)
        || (Within(k, first, last) && fold.start <= k.start <= kid.start)
    {
      hide Links;
      Around(k);
      Around(fold);
      Around(kid);
      OneStart(k);
      if k.start < fold.start {
        Neighbours(fold, k);
      } else if k.start > kid.start {
        OneStart(kid);
      } else if k != kid {
        SiblingsApart(kid, k);
      }
    }

    /** The last fold from `fold` on that lies within a range. */
    method LastWithin(fold: Fold, first: int, last: int) returns (kid: Fold)
      requires Links() && fold in nodes && Within(fold, first, last)
      ensures kid in nodes && kid.parent == fold.parent && Within(kid, first, last) && fold.start <= kid.start
      ensures kid.next != null ==> kid.next in nodes && first < kid.next.start && last < kid.next.end
    {
      hide Links;
      kid := fold;
      Around(kid);
      while kid.next != null && kid.next.end <= last
        invariant kid in nodes && kid.parent == fold.parent && Within(kid, first, last) &&
          fold.start <= kid.start < lineCount
        invariant kid.next != null ==>
          kid.next in nodes && kid.next.parent == fold.parent && kid.end < kid.next.start && kid.start <= kid.end
        decreases lineCount - kid.start
      {
        kid := kid.next;
        Around(kid);
      }
    }

    /** Adds a fold as the insertion is meant: a fold between two others is linked on both sides, and the new fold
        takes in every fold of its list within its range. It fails exactly when some fold crosses the range. */
    method InsertMeant(parent: Fold?, firstLine: int, lastLine: int) returns (r: Fold?)
      requires Valid() && (parent != null ==> parent in nodes) && Encloses(parent, firstLine, lastLine)
      requires 0 <= firstLine < lastLine < lineCount
      modifies this`folds, this`nFolds, this`nodes, nodes`parent, nodes`prev, nodes`next, nodes`children,
        nodes`nChildren
      ensures Valid()
      ensures r == null <==> exists f :: f in old(nodes) && Crosses(f, firstLine, lastLine)
      ensures r == null ==> unchanged(this) && forall f :: f in nodes ==> unchanged(f)
      ensures r != null ==>
        fresh(r) && nodes == old(nodes) + {r} && r.start == firstLine && r.end == lastLine && !r.collapsed
      decreases lineCount - if parent == null then -1 else parent.start
    {
      hide Links, Scanned, SlotOk;
      ScannedNone(parent, firstLine);
      ScannedTo(parent, Head(parent), null, firstLine);
      var last: Fold? := null;
      var fold := if parent != null then parent.children else folds;
      while fold != null
        invariant Links() && Scanned(parent, fold, last, firstLine) && (fold != null ==> fold in nodes)
        invariant unchanged(this) && forall f :: f in nodes ==> unchanged(f)
        decreases if fold == null then -1 else lineCount - fold.start
      {
        Around(fold);
        ScannedTo(parent, fold, last, firstLine);
        if fold.next == null {
          last := fold;
        }
        if fold.end < firstLine {
          ScannedNext(parent, fold, null, last, firstLine);
          fold := fold.next;
          continue;
        }
        if fold.start > lastLine {
          ScannedOn(parent, fold, last, firstLine);
          break;
        }
        if Crosses(fold, firstLine, lastLine) {
          return null;
        }
        if fold.start < firstLine {
          r := InsertMeant(fold, firstLine, lastLine);
          return;
        }
        var kid := LastWithin(fold, firstLine, lastLine);
        if kid.next != null && kid.next.start <= lastLine {
          assert Crosses(kid.next, firstLine, lastLine);
          return null;
        }
        var s := Slot(firstLine, lastLine, parent, fold.prev, kid.next, fold, kid);
        WideSlot(fold, kid, s);
        r := PutIn(s);
        return;
      }
      var s := Slot(firstLine, lastLine, parent, if fold != null then fold.prev else last, fold, null, null);
      NewSlot(s, last);
      r := PutIn(s);
    }

    /** A new fold in a slot. */
    method PutIn(s: Slot) returns (r: Fold)
      requires Valid() && SlotOk(s)
      modifies this`folds, this`nFolds, this`nodes, nodes`parent, nodes`prev, nodes`next, nodes`children,
        nodes`nChildren
      ensures Valid() && fresh(r) && nodes == old(nodes) + {r} && r.start == s.from && r.end == s.to && !r.collapsed
      ensures forall f :: f in old(nodes) ==> !Crosses(f, s.from, s.to)
    {
      hide Links, SlotOk;
      r := new Fold(s.from, s.to);
      LinkSlot(r, s);
      NoneCrosses(r);
    }

    lemma ScannedNext(parent: Fold?, fold: Fold, was: Fold?, last: Fold?, first: int)
      requires Links() && fold in nodes && Scanned(parent, fold, was, first) && fold.end < first &&
        (fold.next == null ==> last == fold)
      ensures Scanned(parent, fold.next, last, first) &&
        (fold.next != null ==>
          fold.next in nodes && fold.next.parent == parent && fold.start < fold.next.start < lineCount)
    {
      hide Links;
      Around(fold);
      OneStart(fold);
      if fold.next != null {
        Around(fold.next);
      }
    }

    lemma ScannedOn(parent: Fold?, fold: Fold, last: Fold?, first: int)
      requires Scanned(parent, fold, null, first)
      ensures Scanned(parent, fold, last, first)
    {
    }

    lemma ScannedTo(parent: Fold?, fold: Fold?, last: Fold?, first: int)
      requires Scanned(parent, fold, last, first)
      ensures fold != null ==> fold in nodes && fold.parent == parent && Scanned(parent, fold, null, first)
    {
    }

    /** Expands a fold and splices it out; exact again unless a collapsed fold around it hides its lines. */
    method Remove(fold: Fold)
      requires Valid() && fold in nodes
      modifies this`folds, this`nFolds, this`nodes, this`hidden, nodes`collapsed, nodes`parent, nodes`next, nodes`prev,
               nodes`children, nodes`nChildren, nodes`deleted
      ensures Valid() && nodes == old(nodes) - {fold} && fold.deleted
      ensures PreOrder(folds) == Without(old(PreOrder(folds)), fold)
      ensures Collapsed() == old(Collapsed()) - {fold}
      ensures !old(fold.collapsed) ==> hidden == old(hidden)
      ensures old(fold.collapsed) ==> forall l :: 0 <= l < lineCount ==>
        (hidden[l] <==> old(hidden)[l] && (fold.start <= l <= fold.end ==>
          exists g :: g in nodes && g.collapsed && fold.start < g.start && g.end <= fold.end && g.start < l <= g.end))
      ensures tagInstalled && old(Exact()) ==>
        (Exact() <==> !old(fold.collapsed) || NoneAround(old(Collapsed()), fold))
      ensures old(Justified()) ==> Justified()
    {
      hide Links, PreOrder;
      FirstInOrder();
      PreOrderAll();
      ghost var order := PreOrder(folds);
      Expand(fold);
      ghost var left := Collapsed();
      assert left == old(Collapsed()) - {fold};
      Unlink(fold);
      assert Collapsed() == left;
      FirstInOrder();
      PreOrderAll();
      WithoutOrdered(order, fold);
      OneOrder(PreOrder(folds), Without(order, fold));
    }

    /** The line on which a fold started or ended is gone: the fold goes too, and exactly the lines that
        the folds left over hide stay hidden, however they were hidden before. */
    method MarkDeleted(fold: Fold?)
      requires Valid() && (fold != null && !fold.deleted ==> fold in nodes)
      modifies this`folds, this`nFolds, this`nodes, this`hidden, nodes`collapsed, nodes`parent, nodes`next, nodes`prev,
               nodes`children, nodes`nChildren, nodes`deleted
      ensures Valid()
      ensures fold == null || old(fold.deleted) ==> unchanged(this) && forall f :: f in nodes ==> unchanged(f)
      ensures fold != null && !old(fold.deleted) ==>
        && nodes == old(nodes) - {fold} && fold.deleted
        && Collapsed() == old(Collapsed()) - {fold}
        && (tagInstalled ==> Exact()) && Justified()
    {
      hide Links;
      if fold == null || fold.deleted {
        return;
      }
      fold.collapsed := false;
      Remove(fold);
      if !tagInstalled {
        return;
      }
      TagLines(0, lineCount - 1, false);
      Recollapse();
    }

    /** Collapses every collapsed fold once more. */
    method Recollapse()
      requires Valid() && tagInstalled && forall l :: 0 <= l < lineCount ==> !hidden[l]
      modifies nodes`collapsed, this`hidden
      ensures Valid() && Collapsed() == old(Collapsed()) && Exact()
    {
      hide Links;
      FirstInOrder();
      ghost var was := Collapsed();
      ghost var done: set<Fold> := {};
      var other := folds;
      while other != null
        invariant TagOk() && Collapsed() == was
        invariant other != null ==> other in nodes
        invariant done <= nodes && forall g :: g in nodes ==> (g in done <==> other == null || g.start < other.start)
        invariant forall l :: 0 <= l < lineCount ==> (hidden[l] <==> Covered(was * done, l))
        decreases if other == null then -1 else lineCount - other.start
      {
        Around(other);
        OneStart(other);
        if !other.deleted && other.collapsed {
          other.collapsed := false;
          assert Collapsed() == was - {other};
          Collapse(other);
          assert was * (done + {other}) == was * done + {other};
        } else {
          assert was * (done + {other}) == was * done;
        }
        done := done + {other};
        other := Advance(other);
      }
      assert was * done == was;
    }

    /** Shows everything if some fold is collapsed; collapses the topmost folds if none is. */
    method Toggle() returns (changed: bool)
      requires Valid() && Justified()
      modifies nodes`collapsed, this`hidden
      ensures Valid() && Justified() && (tagInstalled ==> Exact())
      ensures changed <==> nodes != {}
      ensures Collapsed() == if old(Collapsed()) != {} then {} else Kids(null)
    {
      hide Links, Exact, Kids;
      FirstInOrder();
      var seenExpanded, seenCollapsed := false, false;
      var fold := folds;
      while fold != null
        invariant fold != null ==> fold in nodes
        invariant seenCollapsed ==> Collapsed() != {}
        invariant seenExpanded ==> nodes != {}
        invariant !seenCollapsed ==> forall g :: g in nodes && (fold == null || g.start < fold.start) ==> !g.collapsed
        invariant !seenExpanded ==> forall g :: g in nodes && (fold == null || g.start < fold.start) ==> g.collapsed
        decreases if fold == null then -1 else lineCount - fold.start
        modifies {}
      {
        Around(fold);
        OneStart(fold);
        if !fold.deleted {
          if fold.collapsed {
            assert fold in Collapsed();
            seenCollapsed := true;
          } else {
            seenExpanded := true;
          }
        }
        if seenCollapsed && seenExpanded {
          break;
        }
        fold := Advance(fold);
      }
      if seenCollapsed {
        var _ := ExpandAll();
        changed := true;
      } else if seenExpanded {
        assert Collapsed() == {};
        NoneHidden();
        var _ := CollapseAll();
        changed := true;
      } else {
        assert nodes == {};
        TopEmpty();
        NoneHidden();
        changed := false;
      }
    }

    /** Without collapsed folds no line is hidden, and that is exact. */
    lemma NoneHidden()
      requires TagOk() && Justified() && Collapsed() == {}
      ensures Exact()
    {
    }

    lemma TopEmpty()
      requires nodes == {}
      ensures Kids(null) == {} && Collapsed() == {}
    {
    }

    // ----- the pre-order of the forest

    /** The folds reached from f by first child, then next sibling: pre-order. */
    ghost function PreOrder(f: Fold?): seq<Fold>
      requires Links() && (f != null ==> f in nodes)
      reads this`folds, this`nFolds, this`nodes, nodes`parent, nodes`next, nodes`prev,
            nodes`children, nodes`nChildren, nodes`deleted
      decreases if f == null then -1 else lineCount - f.start
    {
      if f == null then [] else
        Around(f);
        [f] + PreOrder(f.children) + PreOrder(f.next)
    }

    /** s lists the folds that start between two lines, each once, by their first lines. */
    ghost predicate Lists(s: seq<Fold>, lo: int, hi: int)
      reads this`nodes
    {
      && Ordered(s)
      && (forall g :: g in s ==> g in nodes && lo <= g.start <= hi)
      && (forall g :: g in nodes && lo <= g.start <= hi ==> g in s)
    }

    lemma ListsJoin(f: Fold, inner: seq<Fold>, later: seq<Fold>, mid: int, hi: int)
      requires Links() && f in nodes && f.start <= mid <= hi
      requires Lists(inner, f.start + 1, mid) && Lists(later, mid + 1, hi)
      ensures Lists([f] + inner + later, f.start, hi)
    {
      hide Links;
      OneStart(f);
      var s := [f] + inner + later;
      assert forall i :: 0 <= i < |inner| ==> inner[i] in inner;
      assert forall i :: 0 <= i < |later| ==> later[i] in later;
      assert forall g :: g in s <==> g == f || g in inner || g in later;
    }

    ghost function Limit(p: Fold?): int {
      if p == null then lineCount else p.end
    }

    /** Behind f nothing of its list starts before f's next fold. */
    lemma AfterFold(f: Fold, g: Fold)
      requires Links() && f in nodes && g in nodes && f.end < g.start <= Limit(f.parent)
      ensures f.next != null && f.next.start <= g.start
    {
      Around(f);
      assert f.parent != null ==> Nested(g, f.parent);
      var k := TopKid(f.parent, g);
      if k != f {
        SiblingsApart(k, f);
      }
    }

    /** From f on, pre-order lists the folds of f and of its later siblings. */
    lemma {:induction false} PreOrderFrom(f: Fold)
      requires Links() && f in nodes
      ensures Lists(PreOrder(f), f.start, Limit(f.parent))
      decreases lineCount - f.start
    {
      hide Links;
      Around(f);
      NothingInside(f);
      var inner, later := PreOrder(f.children), PreOrder(f.next);
      assert Lists(inner, f.start + 1, f.end) by {
        if f.children != null {
          PreOrderFrom(f.children);
        }
      }
      assert Lists(later, f.end + 1, Limit(f.parent)) by {
        if f.next != null {
          PreOrderFrom(f.next);
        }
        forall g | g in nodes && f.end < g.start <= Limit(f.parent) ensures f.next != null && f.next.start <= g.start {
          AfterFold(f, g);
        }
      }
      ListsJoin(f, inner, later, f.end, Limit(f.parent));
    }

    /** Pre-order visits every fold exactly once, by increasing first lines. */
    lemma PreOrderAll()
      requires Links()
      ensures Ordered(PreOrder(folds))
      ensures forall g :: g in PreOrder(folds) ==> g in nodes
      ensures forall g :: g in nodes ==> g in PreOrder(folds)
    {
      FirstInOrder();
      TopHasNoParent();
      if folds != null {
        PreOrderFrom(folds);
        forall g | g in nodes ensures g in PreOrder(folds) {
          Around(g);
        }
      }
    }

    lemma TopHasNoParent()
      requires Links()
      ensures folds != null ==> folds.parent == null
    {
      assert ListOk(null);
    }

    /** The folds in the order in which the traversal macro visits them. */
    method Visit() returns (visited: seq<Fold>)
      requires Links()
      ensures visited == PreOrder(folds)
    {
      hide Links, PreOrder;
      FirstInOrder();
      visited := [];
      var iter := folds;
      while iter != null
        invariant iter != null ==> iter in nodes
        invariant Ordered(visited)
        invariant forall g :: g in visited ==> g in nodes && (iter == null || g.start < iter.start)
        invariant forall g :: g in nodes && (iter == null || g.start < iter.start) ==> g in visited
        decreases if iter == null then -1 else lineCount - iter.start
      {
        Around(iter);
        OneStart(iter);
        assert forall i :: 0 <= i < |visited| ==> visited[i] in visited;
        visited := visited + [iter];
        iter := Advance(iter);
      }
      PreOrderAll();
      OneOrder(visited, PreOrder(folds));
    }
  }

  /** A list of folds by increasing first lines. */
  ghost predicate Ordered(s: seq<Fold>) {
    forall i, j :: 0 <= i < j < |s| ==> s[i].start < s[j].start
  }

  ghost function Without(s: seq<Fold>, f: Fold): seq<Fold> {
    if s == [] then [] else if s[0] == f then Without(s[1..], f) else [s[0]] + Without(s[1..], f)
  }

  lemma {:induction false} WithoutMembers(s: seq<Fold>, f: Fold)
    ensures forall g :: g in Without(s, f) ==> g in s && g != f
    ensures forall g :: g in s && g != f ==> g in Without(s, f)
  {
    if s != [] {
      WithoutMembers(s[1..], f);
      assert forall g :: g in s <==> g == s[0] || g in s[1..];
    }
  }

  lemma {:induction false} WithoutOrdered(s: seq<Fold>, f: Fold)
    requires Ordered(s)
    ensures Ordered(Without(s, f))
    ensures forall g :: g in Without(s, f) ==> g in s && g != f
    ensures forall g :: g in s && g != f ==> g in Without(s, f)
  {
    WithoutMembers(s, f);
    if s != [] {
      var r := Without(s[1..], f);
      assert forall i :: 0 <= i < |s[1..]| ==> s[1..][i] == s[i + 1];
      WithoutOrdered(s[1..], f);
      if s[0] != f {
        assert Without(s, f) == [s[0]] + r;
        AheadOrdered(s[0], r);
      }
    }
  }

  lemma AheadOrdered(f: Fold, s: seq<Fold>)
    requires Ordered(s) && forall g :: g in s ==> f.start < g.start
    ensures Ordered([f] + s)
  {
    var t := [f] + s;
    forall i, j | 0 <= i < j < |t| ensures t[i].start < t[j].start {
      assert t[j] == s[j - 1] && s[j - 1] in s;
    }
  }

  /** There is only one way to list a set of folds by increasing first lines. */
  lemma {:induction false} OneOrder(a: seq<Fold>, b: seq<Fold>)
    requires Ordered(a) && Ordered(b)
    requires forall g :: g in a <==> g in b
    ensures a == b
  {
    assert a != [] ==> a[0] in b;
    assert b != [] ==> b[0] in a;
    if a != [] && b != [] {
      assert a[0] == b[0];
      assert forall g :: g in a[1..] <==> g in a && g != a[0];
      assert forall g :: g in b[1..] <==> g in b && g != b[0];
      OneOrder(a[1..], b[1..]);
    }
  }

  lemma AtMostOne(tree: FoldTree, first: int, last: int)
    requires tree.Links() && forall f, g :: f in tree.nodes && g in tree.nodes ==> f == g
    ensures !tree.MiddleGap(first, last) && !tree.ReachesTwo(first, last)
  {
    forall f | f in tree.nodes ensures f.next == null {
      tree.Around(f);
    }
  }

  lemma GapOfTwo(tree: FoldTree, a: Fold, b: Fold, first: int, last: int)
    requires tree.Links() && tree.nodes == {a, b} && a.end < first <= last < b.start
    ensures tree.MiddleGap(first, last)
  {
    hide FoldTree.Links;
    tree.Around(a);
    tree.Around(b);
    tree.OneStart(a);
    assert a.parent == null && b.parent == null;
    assert a in tree.nodes && a.next == b;
  }

  /** The folds 0-1 and 4-5 leave a gap for 2-3; adding that fold breaks the tree. */
  method MiddleInsertBreaks() returns (tree: FoldTree)
    ensures fresh(tree) && |tree.nodes| == 3 && !tree.Valid()
  {
    hide FoldTree.Links, FoldTree.MiddleGap, FoldTree.ReachesTwo, FoldTree.Collapsed, FoldTree.Exact,
      FoldTree.Justified, FoldTree.LinkedBetween, FoldTree.LinkedShort, FoldTree.Pointing;
    tree := new FoldTree(6);
    AtMostOne(tree, 0, 1);
    var a := tree.Add(0, 1);
    AtMostOne(tree, 4, 5);
    var b := tree.Add(4, 5);
    GapOfTwo(tree, a, b, 2, 3);
    var c := tree.Add(2, 3);
    assert tree.nodes == {a, b, c};
  }

  lemma ReachOfTwo(tree: FoldTree, a: Fold, b: Fold, first: int, last: int)
    requires tree.Links() && tree.nodes == {a, b} && first < a.start && a.end < b.start && b.start <= last
    ensures tree.ReachesTwo(first, last)
  {
    hide FoldTree.Links;
    tree.Around(a);
    tree.Around(b);
    tree.OneStart(a);
    assert a.parent == null && b.parent == null;
    assert a in tree.nodes && a.next == b;
  }

  /** A fold 0-6 around the folds 1-2 and 4-5 takes in only the first of them; that breaks the tree. */
  method WideInsertBreaks() returns (tree: FoldTree)
    ensures fresh(tree) && |tree.nodes| == 3 && !tree.Valid()
  {
    hide FoldTree.Links, FoldTree.MiddleGap, FoldTree.ReachesTwo, FoldTree.Collapsed, FoldTree.Exact,
      FoldTree.Justified, FoldTree.LinkedBetween, FoldTree.LinkedShort, FoldTree.Pointing;
    tree := new FoldTree(7);
    AtMostOne(tree, 1, 2);
    var a := tree.Add(1, 2);
    AtMostOne(tree, 4, 5);
    var b := tree.Add(4, 5);
    ReachOfTwo(tree, a, b, 0, 6);
    var c := tree.Add(0, 6);
    assert tree.nodes == {a, b, c};
  }

  /** Expanding the fold 1-2 inside the collapsed fold 0-3 shows a line that the outer fold should hide. */
  method ExpandInsideShows() returns (tree: FoldTree)
    ensures fresh(tree) && tree.Valid() && tree.tagInstalled && !tree.Exact()
  {
    hide FoldTree.Links, FoldTree.MiddleGap, FoldTree.ReachesTwo, FoldTree.Exact, FoldTree.Justified,
      FoldTree.LinkedBetween, FoldTree.LinkedShort, FoldTree.Pointing;
    tree := new FoldTree(4);
    AtMostOne(tree, 0, 3);
    var outer := tree.Add(0, 3);
    AtMostOne(tree, 1, 2);
    var inner := tree.Add(1, 2);
    tree.InstallTag();
    tree.Collapse(outer);
    tree.Collapse(inner);
    assert outer in tree.Collapsed() && Inside(inner, outer);
    tree.Expand(inner);
  }
}
