/** Lines of a text buffer and the marks on them, kept in an augmented B-tree
    (src/mooedit/moolinebuffer.cpp over src/mooedit/mootextbtree.cpp). */
module LineBuffers {

  const MAX_CAPACITY := 16
  const MIN_CAPACITY := 8

  class LineMark {
    var line: Line?
    var lineNo: int
    var stamp: nat

    constructor ()
      ensures line == null && lineNo == -1 && stamp == 0
    {
      line, lineNo, stamp := null, -1, 0;
    }

    method SetLine(line: Line?, lineNo: int, stamp: nat)
      modifies this
      ensures this.line == line && this.lineNo == lineNo && this.stamp == stamp
    {
      this.line, this.lineNo, this.stamp := line, lineNo, stamp;
    }
  }

  class Line {
    var parent: Node
    var nMarks: int
    var marks: seq<LineMark>

    constructor (p: Node)
      ensures parent == p && nMarks == 0 && marks == []
    {
      parent, nMarks, marks := p, 0, [];
    }
  }

  /** A tree node; its height above the bottom level and the lines below it are there for the proofs. */
  class Node {
    var parent: Node?
    var nMarks: int
    var children: seq<Node>
    var data: seq<Line>
    var isBottom: bool
    var count: int
    ghost var height: nat
    ghost var content: seq<Line>

    constructor (bottom: bool)
      ensures parent == null && nMarks == 0 && children == [] && data == [] && isBottom == bottom && count == 0
    {
      parent, nMarks, children, data, isBottom, count := null, 0, [], [], bottom, 0;
    }
  }

  ghost predicate Distinct<T>(s: seq<T>) {
    forall i, j :: 0 <= i < j < |s| ==> s[i] != s[j]
  }

  lemma SliceOfSlice<T>(t: seq<T>, s: nat, n: nat, b: nat, w: nat)
    requires s + n <= |t| && b + w <= n
    ensures t[s..s + n][b..b + w] == t[s + b..s + b + w]
  {
    var a, c := t[s..s + n][b..b + w], t[s + b..s + b + w];
    assert forall i :: 0 <= i < w ==> a[i] == c[i];
  }

  ghost function Elements<T>(s: seq<T>): set<T> {
    set x | x in s
  }

  ghost function Concat<T>(ss: seq<seq<T>>): seq<T> {
    if ss == [] then [] else ss[0] + Concat(ss[1..])
  }

  ghost function Sum(s: seq<int>): int {
    if s == [] then 0 else s[0] + Sum(s[1..])
  }

  lemma {:induction false} ConcatJoin<T>(a: seq<seq<T>>, b: seq<seq<T>>)
    ensures Concat(a + b) == Concat(a) + Concat(b)
  {
    if a == [] {
      assert a + b == b;
    } else {
      assert (a + b)[1..] == a[1..] + b;
      ConcatJoin(a[1..], b);
    }
  }

  lemma {:induction false} SumJoin(a: seq<int>, b: seq<int>)
    ensures Sum(a + b) == Sum(a) + Sum(b)
  {
    if a == [] {
      assert a + b == b;
    } else {
      assert (a + b)[1..] == a[1..] + b;
      SumJoin(a[1..], b);
    }
  }

  /** The part of a concatenation that comes from its i-th piece. */
  lemma ConcatPiece<T>(ss: seq<seq<T>>, i: nat)
    requires i < |ss|
    ensures |Concat(ss[..i])| + |ss[i]| <= |Concat(ss)|
    ensures Concat(ss) == Concat(ss[..i]) + ss[i] + Concat(ss[i + 1..])
    ensures Concat(ss[..i + 1]) == Concat(ss[..i]) + ss[i]
  {
    assert ss == ss[..i] + ([ss[i]] + ss[i + 1..]);
    assert ss[..i + 1] == ss[..i] + [ss[i]];
    assert Concat([ss[i]]) == ss[i];
    ConcatJoin(ss[..i], [ss[i]] + ss[i + 1..]);
    ConcatJoin([ss[i]], ss[i + 1..]);
    ConcatJoin(ss[..i], [ss[i]]);
  }

  /** The lines below each node of a list. */
  ghost function Contents(ns: seq<Node>): (r: seq<seq<Line>>)
    reads ns`content
    ensures |r| == |ns| && forall i :: 0 <= i < |ns| ==> r[i] == ns[i].content
  {
    if ns == [] then [] else [ns[0].content] + Contents(ns[1..])
  }

  /** The mark counter of each line of a list. */
  ghost function Weights(s: seq<Line>): (r: seq<int>)
    reads s`nMarks
    ensures |r| == |s| && forall i :: 0 <= i < |s| ==> r[i] == s[i].nMarks
  {
    if s == [] then [] else [s[0].nMarks] + Weights(s[1..])
  }

  ghost function Total(s: seq<Line>): int
    reads s`nMarks
  {
    Sum(Weights(s))
  }

  lemma TotalJoin(a: seq<Line>, b: seq<Line>)
    ensures Total(a + b) == Total(a) + Total(b)
  {
    var u, v := Weights(a + b), Weights(a) + Weights(b);
    assert |u| == |v| && forall i :: 0 <= i < |u| ==> u[i] == v[i];
    assert u == v;
    SumJoin(Weights(a), Weights(b));
  }

  /** s with w elements from k on replaced by x. */
  ghost function Splice<T>(s: seq<T>, k: nat, w: nat, x: seq<T>): (r: seq<T>)
    requires k + w <= |s|
    ensures |r| == |s| - w + |x|
  {
    s[..k] + x + s[k + w..]
  }

  lemma SpliceInside<T>(a: seq<T>, s: seq<T>, b: seq<T>, k: nat, w: nat, x: seq<T>)
    requires k + w <= |s|
    ensures Splice(a + s + b, |a| + k, w, x) == a + Splice(s, k, w, x) + b
  {
    var t, j := a + s + b, |a| + k;
    assert t[..j] == a + s[..k];
    assert t[j + w..] == s[k + w..] + b;
  }

  lemma TotalSplice(s: seq<Line>, k: nat, w: nat, x: seq<Line>)
    requires k + w <= |s|
    ensures Total(Splice(s, k, w, x)) == Total(s) - Total(s[k..k + w]) + Total(x)
  {
    assert s == s[..k] + s[k..k + w] + s[k + w..];
    TotalJoin(s[..k] + s[k..k + w], s[k + w..]);
    TotalJoin(s[..k], s[k..k + w]);
    TotalJoin(s[..k] + x, s[k + w..]);
    TotalJoin(s[..k], x);
  }

  ghost function Reverse<T>(s: seq<T>): seq<T> {
    if s == [] then [] else Reverse(s[1..]) + [s[0]]
  }

  lemma {:induction false} ReverseJoin<T>(a: seq<T>, b: seq<T>)
    ensures Reverse(a + b) == Reverse(b) + Reverse(a)
  {
    if a == [] {
      assert a + b == b;
    } else {
      assert (a + b)[1..] == a[1..] + b;
      ReverseJoin(a[1..], b);
    }
  }

  method ReverseList<T>(s: seq<T>) returns (r: seq<T>)
    ensures r == Reverse(s)
  {
    r := [];
    var i := 0;
    while i < |s|
      invariant 0 <= i <= |s| && r == Reverse(s[..i])
    {
      assert s[..i + 1] == s[..i] + [s[i]];
      ReverseJoin(s[..i], [s[i]]);
      r := [s[i]] + r;
      i := i + 1;
    }
    assert s[..i] == s;
  }

  lemma {:induction false} ReverseTwice<T>(s: seq<T>)
    ensures Reverse(Reverse(s)) == s
  {
    if s != [] {
      ReverseTwice(s[1..]);
      ReverseJoin(Reverse(s[1..]), [s[0]]);
      assert Reverse([s[0]]) == [s[0]];
    }
  }

  lemma {:induction false} ReverseSame<T>(s: seq<T>)
    ensures forall x :: x in Reverse(s) <==> x in s
  {
    if s != [] {
      ReverseSame(s[1..]);
      assert forall x :: x in s <==> x == s[0] || x in s[1..];
    }
  }

  /** The marks of the lines first..last, line by line, in a list of lines the first of which has number offset. */
  ghost function MarksIn(s: seq<Line>, first: int, last: int, offset: int): seq<LineMark>
    reads s`marks
  {
    if s == [] then [] else
      MarksIn(s[..|s| - 1], first, last, offset) +
      if first <= offset + |s| - 1 <= last then s[|s| - 1].marks else []
  }

  lemma {:induction false} MarksInJoin(a: seq<Line>, b: seq<Line>, first: int, last: int, offset: int)
    ensures MarksIn(a + b, first, last, offset) ==
      MarksIn(a, first, last, offset) + MarksIn(b, first, last, offset + |a|)
  {
    if b == [] {
      assert a + b == a;
    } else {
      var c := b[..|b| - 1];
      assert (a + b)[..|a + b| - 1] == a + c;
      MarksInJoin(a, c, first, last, offset);
    }
  }

  /** Lines out of range or without marks contribute nothing. */
  lemma {:induction false} MarksInNone(s: seq<Line>, first: int, last: int, offset: int)
    requires last < offset || offset + |s| <= first || forall d :: d in s ==> d.marks == []
    ensures MarksIn(s, first, last, offset) == []
  {
    if s != [] {
      MarksInNone(s[..|s| - 1], first, last, offset);
      assert s[|s| - 1] in s;
    }
  }

  /** The marks of lines, line by line. */
  ghost function AllMarks(s: seq<Line>): seq<LineMark>
    reads s`marks
  {
    if s == [] then [] else AllMarks(s[..|s| - 1]) + s[|s| - 1].marks
  }

  lemma AllMarksOne(d: Line)
    ensures AllMarks([d]) == d.marks
  {
    assert AllMarks([]) == [];
  }

  lemma {:induction false} AllMarksJoin(a: seq<Line>, b: seq<Line>)
    ensures AllMarks(a + b) == AllMarks(a) + AllMarks(b)
  {
    if b == [] {
      assert a + b == a;
    } else {
      assert (a + b)[..|a + b| - 1] == a + b[..|b| - 1];
      AllMarksJoin(a, b[..|b| - 1]);
    }
  }

  /** When all lines are in range, all their marks are. */
  lemma {:induction false} AllInRange(s: seq<Line>, first: int, last: int, offset: int)
    requires first <= offset && offset + |s| - 1 <= last
    ensures MarksIn(s, first, last, offset) == AllMarks(s)
  {
    if s != [] {
      AllInRange(s[..|s| - 1], first, last, offset);
    }
  }

  /** The marks in a range are those of the lines from the first to the last one, which is included. */
  lemma RangeIs(s: seq<Line>, first: int, last: int)
    requires 0 <= first <= last < |s|
    ensures MarksIn(s, first, last, 0) == AllMarks(s[first..last + 1])
  {
    var a, b, c := s[..first], s[first..last + 1], s[last + 1..];
    assert s == a + (b + c);
    MarksInJoin(a, b + c, first, last, 0);
    MarksInJoin(b, c, first, last, first);
    MarksInNone(a, first, last, 0);
    MarksInNone(c, first, last, last + 1);
    AllInRange(b, first, last, first);
  }

  ghost function Power(b: nat, e: nat): nat {
    if e == 0 then 1 else b * Power(b, e - 1)
  }

  lemma PowerNext(b: nat, e: nat)
    ensures Power(b, e + 1) == b * Power(b, e)
  {
  }

  lemma PowerNone(b: nat)
    ensures Power(b, 0) == 1
  {
  }

  lemma Eightfold(n: nat, k: nat)
    requires 8 <= n
    ensures 8 * k <= n * k
  {
  }

  /** A line put in at a place, in front of those put in there before. */
  lemma Parted(s: seq<Line>, at: nat, d: Line, n: nat)
    requires at + n <= |s|
    ensures var t := s[..at] + [d] + s[at..];
      t[..at] == s[..at] && t[at + (n + 1)..] == s[at + n..] && t[at..at + (n + 1)] == [d] + s[at..at + n]
  {
    var a, b, c := s[..at], s[at..at + n], s[at + n..];
    assert s[at..] == b + c;
    assert s[..at] + [d] + s[at..] == a + ([d] + b) + c;
    assert |a| == at && |[d] + b| == n + 1;
  }

  lemma Once(n: nat, k: nat)
    requires 1 <= n
    ensures k <= n * k
  {
  }

  lemma {:induction false} LongConcat<T>(ss: seq<seq<T>>, k: nat)
    requires forall i :: 0 <= i < |ss| ==> k <= |ss[i]|
    ensures |ss| * k <= |Concat(ss)|
  {
    if ss != [] {
      LongConcat(ss[1..], k);
      assert |ss| * k == k + (|ss| - 1) * k;
    }
  }

  lemma {:induction false} SumZero(s: seq<int>)
    requires forall w :: w in s ==> 0 <= w
    ensures 0 <= Sum(s) && (Sum(s) == 0 ==> forall w :: w in s ==> w == 0)
  {
    if s != [] {
      assert s[0] in s && forall w :: w in s[1..] ==> w in s;
      SumZero(s[1..]);
      assert forall w :: w in s ==> w == s[0] || w in s[1..];
    }
  }

  lemma {:induction false} InConcat<T>(ss: seq<seq<T>>, x: T) returns (i: nat)
    requires x in Concat(ss)
    ensures i < |ss| && x in ss[i]
  {
    if x in ss[0] {
      i := 0;
    } else {
      i := InConcat(ss[1..], x);
      i := i + 1;
    }
  }

  lemma {:induction false} SumBump(w: seq<int>, k: nat, add: int)
    requires k < |w|
    ensures Sum(w[k := w[k] + add]) == Sum(w) + add
  {
    if k > 0 {
      assert w[k := w[k] + add][1..] == w[1..][k - 1 := w[k] + add];
      SumBump(w[1..], k - 1, add);
    } else {
      assert w[k := w[k] + add][1..] == w[1..];
    }
  }

  lemma RemovedAt<T>(s: seq<T>, i: nat)
    requires i < |s| && Distinct(s)
    ensures Distinct(s[..i] + s[i + 1..])
    ensures forall x :: x in s[..i] + s[i + 1..] <==> x in s && x != s[i]
  {
    var r := s[..i] + s[i + 1..];
    assert forall k :: 0 <= k < |r| ==> r[k] == s[if k < i then k else k + 1];
    forall x | x in s && x != s[i] ensures x in r {
      var k :| 0 <= k < |s| && s[k] == x;
      assert r[if k < i then k else k - 1] == x;
    }
  }

  lemma {:induction false} ConcatUpdate<T>(ss: seq<seq<T>>, i: nat, k: nat, w: nat, x: seq<T>)
    requires i < |ss| && k + w <= |ss[i]|
    ensures |Concat(ss[..i])| + |ss[i]| <= |Concat(ss)|
    ensures Concat(ss)[|Concat(ss[..i])|..|Concat(ss[..i])| + |ss[i]|] == ss[i]
    ensures Concat(ss[i := Splice(ss[i], k, w, x)]) == Splice(Concat(ss), |Concat(ss[..i])| + k, w, x)
  {
    hide Concat, Splice;
    var y := Splice(ss[i], k, w, x);
    var tt := ss[i := y];
    assert tt[..i] == ss[..i] && tt[i + 1..] == ss[i + 1..];
    ConcatPiece(ss, i);
    ConcatPiece(tt, i);
    SpliceInside(Concat(ss[..i]), ss[i], Concat(ss[i + 1..]), k, w, x);
  }

  lemma SpliceDistinct<T>(s: seq<T>, k: nat, w: nat, x: seq<T>)
    requires k + w <= |s| && Distinct(s) && Distinct(x) && forall e :: e in x ==> e !in s
    ensures Distinct(Splice(s, k, w, x))
    ensures forall e :: e in Splice(s, k, w, x) ==> e in s || e in x
  {
    var r := Splice(s, k, w, x);
    forall i, j | 0 <= i < j < |r| ensures r[i] != r[j] {
      assert r[i] == if i < k then s[i] else if i < k + |x| then x[i - k] else s[i - |x| + w];
      assert r[j] == if j < k then s[j] else if j < k + |x| then x[j - k] else s[j - |x| + w];
      assert r[i] in x || r[i] in s;
    }
  }

  lemma ConcatWithout<T>(a: seq<seq<T>>, c: seq<seq<T>>)
    ensures Concat(a + [[]] + c) == Concat(a + c)
  {
    ConcatJoin(a + [[]], c);
    ConcatJoin(a, [[]]);
    ConcatJoin(a, c);
  }

  /** Two neighbours share their elements out anew. */
  lemma ConcatShared<T>(ss: seq<seq<T>>, tt: seq<seq<T>>, i: nat)
    requires |ss| == |tt| && i + 1 < |ss| && forall j :: 0 <= j < |ss| && j != i && j != i + 1 ==> ss[j] == tt[j]
    requires ss[i] + ss[i + 1] == tt[i] + tt[i + 1]
    ensures Concat(ss) == Concat(tt)
  {
    hide Concat;
    assert ss[..i] == tt[..i] && ss[i + 2..] == tt[i + 2..];
    ConcatTwo(ss, i);
    ConcatTwo(tt, i);
  }

  lemma ConcatTwo<T>(ss: seq<seq<T>>, i: nat)
    requires i + 1 < |ss|
    ensures Concat(ss) == Concat(ss[..i]) + (ss[i] + ss[i + 1]) + Concat(ss[i + 2..])
  {
    hide Concat;
    var a, b := ss[..i], ss[i + 2..];
    CutAround(ss, i);
    ConcatJoin(a + [ss[i], ss[i + 1]], b);
    ConcatJoin(a, [ss[i], ss[i + 1]]);
    ConcatPair(ss[i], ss[i + 1]);
  }

  lemma CutAround<T>(s: seq<T>, i: nat)
    requires i + 1 < |s|
    ensures s == s[..i] + [s[i], s[i + 1]] + s[i + 2..]
  {
  }

  lemma ConcatPair<T>(x: seq<T>, y: seq<T>)
    ensures Concat([x, y]) == x + y
  {
    assert [x, y][1..] == [y] && Concat([y]) == y;
  }

  lemma ConcatInserted<T>(was: seq<seq<T>>, now: seq<seq<T>>, i: nat)
    requires i <= |was| && |now| == |was| + 1 && now[i] == []
    requires forall j :: 0 <= j < |now| && j != i ==> now[j] == was[if j < i then j else j - 1]
    ensures Concat(now) == Concat(was)
  {
    hide Concat;
    assert now == was[..i] + [[]] + was[i..];
    ConcatWithout(was[..i], was[i..]);
    assert was[..i] + was[i..] == was;
  }

  lemma InsertedAt<T>(s: seq<T>, i: nat, x: T)
    requires i <= |s| && Distinct(s) && x !in s
    ensures Distinct(s[..i] + [x] + s[i..])
    ensures forall e :: e in s[..i] + [x] + s[i..] <==> e in s || e == x
  {
    var r := s[..i] + [x] + s[i..];
    assert forall k :: 0 <= k < |r| ==> r[k] == if k < i then s[k] else if k == i then x else s[k - 1];
    assert s == s[..i] + s[i..];
  }

  lemma SameElements<T>(a: seq<T>, b: seq<T>, c: seq<T>, d: seq<T>)
    requires a + b == c + d
    ensures forall x :: x in a || x in b <==> x in c || x in d
    ensures c == d == [] ==> a == b == []
  {
    assert forall x :: x in a + b <==> x in a || x in b;
    assert forall x :: x in c + d <==> x in c || x in d;
    assert |a| + |b| == |c| + |d|;
  }

  lemma PartsDistinct<T>(a: seq<T>, b: seq<T>)
    requires Distinct(a + b)
    ensures Distinct(a) && Distinct(b) && forall x :: x in a ==> x !in b
  {
    assert forall i :: 0 <= i < |a| ==> a[i] == (a + b)[i];
    assert forall i :: 0 <= i < |b| ==> b[i] == (a + b)[|a| + i];
  }

  lemma JoinDistinct<T>(a: seq<T>, b: seq<T>)
    requires Distinct(a) && Distinct(b) && forall x :: x in a ==> x !in b
    ensures Distinct(a + b)
  {
    assert forall i :: 0 <= i < |b| ==> b[i] in b;
  }

  lemma HalvesJoin<T>(s: seq<T>, k: nat)
    ensures k <= |s| ==> s[..k] + s[k..] == s && forall x :: x in s <==> x in s[..k] || x in s[k..]
  {
    if k <= |s| {
      assert s[..k] + s[k..] == s;
    }
  }

  lemma CutNext<T>(s: seq<T>, first: nat, i: nat)
    requires first + i < |s|
    ensures var t := s[..first] + s[first + i..];
      t[first] == s[first + i] && t[..first] + t[first + 1..] == s[..first] + s[first + (i + 1)..]
  {
    var t := s[..first] + s[first + i..];
    assert t[first + 1..] == s[first + (i + 1)..];
  }

  lemma ElementsJoin<T>(a: seq<T>, b: seq<T>)
    ensures Elements(a + b) == Elements(a) + Elements(b) && forall x :: x in b <==> x in Elements(b)
  {
  }

  lemma EmptyElements<T>()
    ensures Elements<T>([]) == {}
  {
  }

  method PrependAll<T>(xs: seq<T>, list: seq<T>) returns (r: seq<T>)
    ensures r == Reverse(xs) + list
  {
    r := list;
    for i := 0 to |xs|
      invariant r == Reverse(xs[..i]) + list
    {
      assert xs[..i + 1] == xs[..i] + [xs[i]];
      ReverseJoin(xs[..i], [xs[i]]);
      r := [xs[i]] + r;
    }
    assert xs[..|xs|] == xs;
  }

  lemma ElementsWithin<T>(s: seq<T>, all: set<T>)
    requires forall x :: x in s ==> x in all
    ensures Elements(s) <= all
  {
  }

  lemma NotInRest<T>(s: seq<T>, first: nat, num: nat)
    requires Distinct(s) && 0 < num && first + num <= |s|
    ensures s[first + num - 1] !in s[..first] + s[first + num..]
  {
  }

  lemma RangeDistinct<T>(s: seq<T>, first: nat, num: nat)
    requires Distinct(s) && first + num <= |s|
    ensures Distinct(s[first..first + num])
    ensures num > 0 ==> s[first..first + num - 1] == s[first..first + num][..num - 1]
  {
  }

  lemma SetOutAndIn<T>(all: set<T>, gone: set<T>, kept: seq<T>)
    requires gone <= all - Elements(kept) && Elements(kept) <= all
    ensures all - Elements(kept) - gone + Elements(kept) == all - gone
  {
  }

  class LineBuffer {
    var root: Node
    var stamp: nat
    ghost var nodes: set<Node>
    ghost var lines: set<Line>
    ghost var marks: set<LineMark>

    constructor ()
      ensures Valid() && |root.content| == 1 && marks == {}
    {
      var r := new Node(true);
      var d := new Line(r);
      r.data, r.count := [d], 1;
      r.height, r.content := 0, [d];
      root, stamp, nodes, lines, marks := r, 1, {r}, {d}, {};
      new;
      OneLine(r, d);
    }

    lemma OneLine(r: Node, d: Line)
      requires root == r && nodes == {r} && lines == {d} && marks == {} && 0 < stamp
      requires r.parent == null && r.isBottom && r.height == 0 && r.children == [] && r.data == r.content == [d]
      requires r.count == 1 && r.nMarks == d.nMarks == 0 && d.marks == [] && d.parent == r
      ensures Valid()
    {
      assert NodeOk(root);
      assert Shape();
      assert Weights([d]) == [0] && Sum([0]) == 0;
      assert Sums() && MarksOk() && Cached();
    }

    /** A node fits its parent, its children and the lines below it. */
    ghost predicate NodeOk(n: Node)
      requires root in nodes && n in nodes
      reads this`root, this`nodes, this`lines, nodes`parent, nodes`children, nodes`data, nodes`content, nodes`height,
            nodes`isBottom, nodes`count, lines`parent
    {
      && n.height <= root.height
      && (n.parent == null <==> n == root)
      && (n.parent != null ==> n.parent in nodes && n in n.parent.children)
      && (n.isBottom <==> n.height == 0)
      && n.count == |n.content|
      && Distinct(n.content)
      && (forall d :: d in n.content ==> d in lines)
      && (n.isBottom ==> n.content == n.data && n.children == [] && forall d :: d in n.content ==> d.parent == n)
      && (!n.isBottom ==> n.data == [])
      && Distinct(n.children)
      && (forall c :: c in n.children ==> c in nodes && c.parent == n && c.height + 1 == n.height)
      && (!n.isBottom ==> n.content == Concat(Contents(n.children)))
    }

    /** The tree is well-formed and its bottom level holds exactly the lines. (Naming the conjunction keeps it in one
        piece for the verifier; likewise in the predicates below.) */
    ghost predicate Shape()
      reads this`root, this`nodes, this`lines, nodes`parent, nodes`children, nodes`data, nodes`content, nodes`height,
            nodes`isBottom, nodes`count, lines`parent
    {
      var wellFormed :=
        && root in nodes
        && (forall n {:trigger NodeOk(n)} :: n in nodes ==> NodeOk(n))
        && (forall d {:trigger d.parent} :: d in lines ==>
          d in root.content && d.parent in nodes && d in d.parent.data);
      wellFormed
    }

    /** Every node counts the marks of the lines below it. */
    ghost predicate Sums()
      reads this`nodes, this`lines, nodes`content, nodes`nMarks, lines`nMarks
    {
      var sums := forall n {:trigger n.nMarks} :: n in nodes ==>
        (forall d :: d in n.content ==> d in lines) && n.nMarks == Total(n.content);
      sums
    }

    /** A line's marks point back to it, and every attached mark is on the line it points to. */
    ghost predicate MarksOk()
      reads this`lines, this`marks, lines`marks, lines`nMarks, marks`line
    {
      && (forall d :: d in lines ==> d.nMarks == |d.marks| && Distinct(d.marks))
      && (forall d, m :: d in lines && m in d.marks ==> m in marks && m.line == d)
      && (forall m {:trigger m.line} :: m in marks ==> m.line != null && m.line in lines && m in m.line.marks)
    }

    /** A mark whose cached line number is current has the right one. */
    ghost predicate Cached()
      requires Shape()
      reads this`root, this`nodes, this`lines, this`marks, this`stamp, nodes`parent, nodes`children, nodes`data,
            nodes`content, nodes`height, nodes`isBottom, nodes`count, lines`parent, marks`line, marks`lineNo,
              marks`stamp
    {
      forall m :: m in marks ==>
        && m.stamp <= stamp
        && (m.stamp == stamp ==> 0 <= m.lineNo < |root.content| && root.content[m.lineNo] == m.line)
    }

    ghost predicate Valid()
      reads this, nodes, lines, marks
    {
      var valid := Sound() && Cached() && Full() && 0 < stamp;
      valid
    }

    /** Everything but the cached line numbers. */
    ghost predicate Sound()
      reads this`root, this`nodes, this`lines, this`marks, nodes`parent, nodes`children, nodes`data, nodes`content,
            nodes`height, nodes`isBottom, nodes`count, nodes`nMarks, lines, marks`line
    {
      var sound := Shape() && Sums() && MarksOk();
      sound
    }

    // ----- positions

    /** How many lines lie below the first i children. */
    ghost function Offset(n: Node, i: nat): nat
      requires i <= |n.children|
      reads n`children, n.children`content
    {
      |Concat(Contents(n.children)[..i])|
    }

    lemma NodeFacts(n: Node)
      requires Shape() && n in nodes
      ensures NodeOk(n)
    {
    }

    lemma ChildAt(n: Node, i: nat)
      requires Shape() && n in nodes && !n.isBottom && i < |n.children|
      ensures n.children[i] in nodes && n.children[i].parent == n && n.children[i].height + 1 == n.height
      ensures 0 <= n.children[i].count
      ensures Offset(n, i) <= Offset(n, i + 1) == Offset(n, i) + n.children[i].count <= |n.content| == n.count
      ensures n.children[i].content == n.content[Offset(n, i)..Offset(n, i + 1)]
      ensures Offset(n, 0) == 0
    {
      assert NodeOk(n) && NodeOk(n.children[i]);
      ConcatPiece(Contents(n.children), i);
    }

    lemma ChildrenEnd(n: Node)
      requires Shape() && n in nodes && !n.isBottom
      ensures Offset(n, |n.children|) == |n.content| == n.count && Offset(n, 0) == 0
    {
      assert NodeOk(n);
      assert Contents(n.children)[..|n.children|] == Contents(n.children);
    }

    method Size() returns (size: int)
      requires Valid()
      ensures size == |root.content|
    {
      NodeFacts(root);
      size := root.count;
    }

    /** The line at an index. */
    method GetLine(index: int) returns (line: Line)
      requires Shape() && 0 <= index < |root.content|
      ensures line == root.content[index]
    {
      hide Shape, NodeOk, Offset;
      var node, at := root, index;
      RootIn();
      while !node.isBottom
        invariant node in nodes && 0 <= at < |node.content| && node.content[at] == root.content[index]
        decreases node.height
      {
        var i := 0;
        ghost var skip := at;
        ChildrenEnd(node);
        while true
          invariant 0 <= i < |node.children| && 0 <= at && skip == Offset(node, i) + at
          decreases |node.children| - i
        {
          ChildAt(node, i);
          if at < node.children[i].count {
            break;
          }
          at := at - node.children[i].count;
          i := i + 1;
        }
        NodeFacts(node.children[i]);
        node := node.children[i];
      }
      NodeFacts(node);
      line := node.data[at];
    }

    lemma RootIn()
      requires Shape()
      ensures root in nodes && root.parent == null && Distinct(root.content)
    {
      assert NodeOk(root);
    }

    /** The index of a line: one for each line before it on the bottom level, a whole subtree above. */
    method LineIndex(line: Line) returns (index: int)
      requires Shape() && line in lines
      ensures 0 <= index < |root.content| && root.content[index] == line
      ensures forall i :: 0 <= i < |root.content| && root.content[i] == line ==> i == index
    {
      hide Shape, NodeOk, Offset;
      LineIn(line);
      index := 0;
      var node := line.parent;
      while index < |node.data| && node.data[index] != line
        invariant 0 <= index < |node.data| && line !in node.data[..index]
      {
        index := index + 1;
      }
      while node.parent != null
        invariant node in nodes && 0 <= index < |node.content| && node.content[index] == line
        decreases root.height - node.height
      {
        var parent := node.parent;
        NodeFacts(node);
        ParentFacts(node);
        ChildrenEnd(parent);
        var i := 0;
        ghost var within := index;
        while i < |parent.children| && parent.children[i] != node
          invariant 0 <= i < |parent.children| && node !in parent.children[..i]
          invariant index == Offset(parent, i) + within
        {
          index := index + parent.children[i].count;
          ChildAt(parent, i);
          i := i + 1;
        }
        ChildAt(parent, i);
        node := parent;
      }
      NoOtherRoot(node);
    }

    lemma NoOtherRoot(n: Node)
      requires Shape() && n in nodes && n.parent == null
      ensures n == root && Distinct(root.content)
    {
      assert NodeOk(n);
    }

    lemma LineIn(d: Line)
      requires Shape() && d in lines
      ensures d.parent in nodes && d in d.parent.data && d.parent.content == d.parent.data && d.parent.height == 0
      ensures d in root.content
    {
      assert NodeOk(d.parent);
    }

    lemma ParentFacts(n: Node)
      requires Shape() && n in nodes && n.parent != null
      ensures n.parent in nodes && n in n.parent.children && !n.parent.isBottom &&
        n.parent.height == n.height + 1 <= root.height
    {
      assert NodeOk(n) && NodeOk(n.parent);
    }

    // ----- the marks in a range

    lemma NoMarksBelow(n: Node)
      requires Sound() && n in nodes && n.nMarks == 0
      ensures forall d :: d in n.content ==> d.marks == []
    {
      assert NodeOk(n);
      var w := Weights(n.content);
      forall x | x in w ensures 0 <= x {
        var i :| 0 <= i < |w| && w[i] == x;
        assert n.content[i] in lines;
      }
      SumZero(w);
      forall d | d in n.content ensures d.marks == [] {
        var i :| 0 <= i < |n.content| && n.content[i] == d;
        assert w[i] in w;
      }
    }

    /** The line numbers cached in the marks of the lines first..last, counted from offset, are current. */
    ghost predicate Current(s: seq<Line>, first: int, last: int, offset: int)
      reads this`stamp, s`marks, marks`stamp, this`marks
    {
      forall k, m :: 0 <= k < |s| && first <= offset + k <= last && m in s[k].marks && m in marks ==> m.stamp == stamp
    }

    /** No mark has moved to another line or lost its current line number. */
    twostate predicate SameLines()
      reads this`marks, this`stamp, marks`line, marks`stamp
    {
      && marks == old(marks) && stamp == old(stamp)
      && forall m {:trigger m.line} {:trigger m.stamp} :: m in marks ==>
        m.line == old(m.line) && (old(m.stamp) == stamp ==> m.stamp == stamp)
    }

    /** The lines below n are the lines of the buffer from number `offset` on. */
    ghost predicate LiesAt(n: Node, offset: int)
      reads this`root, root`content, n`content
    {
      0 <= offset && offset + |n.content| <= |root.content| &&
      forall k {:trigger n.content[k]} :: 0 <= k < |n.content| ==> n.content[k] == root.content[offset + k]
    }

    /** Lists the marks of one line, last one first, and caches the number of the line in them. */
    method LineGetMarks(ghost node: Node, i: nat, line: Line, ghost first: int, offset: int, total: seq<LineMark>)
      returns (r: seq<LineMark>)
      requires Shape() && Cached() && LiesAt(node, offset)
      requires i < |node.content| && line == node.content[i] && first <= offset + i
      requires forall m :: m in line.marks ==> m in marks && m.line == line
      requires Current(node.content, first, offset + i - 1, offset)
      modifies marks
      ensures Reverse(r) == Reverse(total) + line.marks
      ensures Current(node.content, first, offset + i, offset) && Cached() && SameLines()
    {
      hide Shape, NodeOk;
      r := total;
      var j := 0;
      while j < |line.marks|
        invariant 0 <= j <= |line.marks|
        invariant Reverse(r) == Reverse(total) + line.marks[..j]
        invariant forall k :: 0 <= k < j ==> line.marks[k].stamp == stamp
        invariant Cached() && SameLines()
      {
        assert line.marks[..j + 1] == line.marks[..j] + [line.marks[j]];
        line.marks[j].SetLine(line, offset + i, stamp);
        r := [line.marks[j]] + r;
        j := j + 1;
      }
      assert line.marks[..j] == line.marks;
    }

    /** The lines of a bottom node, one after the other. */
    method BottomMarks(node: Node, firstLine: int, lastLine: int, nodeOffset: int) returns (total: seq<LineMark>)
      requires Sound() && Cached() && node in nodes && LiesAt(node, nodeOffset) && node.isBottom &&
        firstLine < nodeOffset + |node.content|
      modifies marks
      ensures Reverse(total) == MarksIn(node.content, firstLine, lastLine, nodeOffset)
      ensures Current(node.content, firstLine, lastLine, nodeOffset) && Cached() && SameLines()
    {
      hide Sound, Current, MarksIn, Shape, NodeOk, Sums, MarksOk, Cached;
      BottomFacts(node);
      NodeMarks(node);
      total := [];
      var i := if firstLine - nodeOffset > 0 then firstLine - nodeOffset else 0;
      BottomStart(node.content, i, firstLine, lastLine, nodeOffset);
      while i < |node.data|
        invariant firstLine - nodeOffset <= i && 0 <= i <= |node.data|
        invariant Reverse(total) == MarksIn(node.content[..i], firstLine, lastLine, nodeOffset)
        invariant Current(node.content, firstLine, nodeOffset + i - 1, nodeOffset) && Cached() && SameLines()
      {
        if i + nodeOffset > lastLine {
          break;
        }
        var line := node.data[i];
        MarksInNext(node.content, i, firstLine, lastLine, nodeOffset);
        total := LineGetMarks(node, i, line, firstLine, nodeOffset, total);
        i := i + 1;
      }
      BottomEnd(node.content, i, firstLine, lastLine, nodeOffset);
    }

    lemma BottomStart(s: seq<Line>, i: nat, first: int, last: int, offset: int)
      requires i <= |s| && (i == 0 || offset + i <= first)
      ensures MarksIn(s[..i], first, last, offset) == [] && Current(s, first, offset + i - 1, offset)
    {
      MarksInNone(s[..i], first, last, offset);
    }

    lemma BottomEnd(s: seq<Line>, i: nat, first: int, last: int, offset: int)
      requires i <= |s| && (i == |s| || last < offset + i) && Current(s, first, offset + i - 1, offset)
      ensures MarksIn(s, first, last, offset) == MarksIn(s[..i], first, last, offset) && Current(s, first, last, offset)
    {
      assert s == s[..i] + s[i..];
      MarksInJoin(s[..i], s[i..], first, last, offset);
      MarksInNone(s[i..], first, last, offset + i);
    }

    lemma BottomFacts(n: Node)
      requires Sound() && n in nodes && n.isBottom
      ensures Shape() && n.content == n.data
    {
      assert NodeOk(n);
    }

    lemma NodeMarks(n: Node)
      requires Sound() && n in nodes
      ensures forall k, m :: 0 <= k < |n.content| && m in n.content[k].marks ==> m in marks && m.line == n.content[k]
    {
      assert NodeOk(n);
    }

    lemma MarksInNext(s: seq<Line>, i: nat, first: int, last: int, offset: int)
      requires i < |s|
      ensures MarksIn(s[..i + 1], first, last, offset) ==
        MarksIn(s[..i], first, last, offset) + if first <= offset + i <= last then s[i].marks else []
    {
      assert s[..i + 1][..i] == s[..i];
    }

    lemma CurrentJoin(a: seq<Line>, b: seq<Line>, first: int, last: int, offset: int)
      requires Current(a, first, last, offset) && Current(b, first, last, offset + |a|)
      ensures Current(a + b, first, last, offset)
    {
      forall k, m | 0 <= k < |a + b| && first <= offset + k <= last && m in (a + b)[k].marks && m in marks
        ensures m.stamp == stamp
      {
        assert k >= |a| ==> (a + b)[k] == b[k - |a|];
      }
    }

    /** The lines below the first i children. */
    ghost function Before(n: Node, i: nat): seq<Line>
      requires i <= |n.children|
      reads n`children, n.children`content
    {
      Concat(Contents(n.children)[..i])
    }

    lemma BeforeNext(n: Node, i: nat)
      requires Shape() && n in nodes && !n.isBottom && i < |n.children|
      ensures Before(n, 0) == []
      ensures Before(n, i + 1) == Before(n, i) + n.children[i].content
      ensures |Before(n, i + 1)| == |Before(n, i)| + n.children[i].count <= |n.content|
      ensures n.content == Before(n, i) + n.children[i].content + n.content[|Before(n, i + 1)|..]
      ensures n.children[i] in nodes && n.children[i].height < n.height
    {
      assert NodeOk(n) && NodeOk(n.children[i]);
      ConcatPiece(Contents(n.children), i);
    }

    /** Lines below different children of a node are different, and so are their marks. */
    lemma BeforeApart(n: Node, i: nat)
      requires Sound() && n in nodes && !n.isBottom && i < |n.children|
      ensures forall k :: 0 <= k < |Before(n, i)| ==>
        Before(n, i)[k] in lines && Before(n, i)[k] !in n.children[i].content
      ensures forall k, m :: 0 <= k < |Before(n, i)| && m in Before(n, i)[k].marks ==>
        m in marks && m.line == Before(n, i)[k]
      ensures forall start :: LiesAt(n, start) ==> LiesAt(n.children[i], start + |Before(n, i)|)
    {
      assert NodeOk(n);
      BeforeNext(n, i);
      var a, b := Before(n, i), n.children[i].content;
      forall start | LiesAt(n, start) ensures LiesAt(n.children[i], start + |a|) {
        assert forall k {:trigger b[k]} :: 0 <= k < |b| ==> n.content[|a| + k] == b[k];
      }
      forall k | 0 <= k < |a| ensures a[k] in lines && a[k] !in b {
        assert n.content[k] == a[k];
        assert forall j :: 0 <= j < |b| ==> n.content[|a| + j] == b[j];
      }
    }

    /** One child's marks, if it has any, in front of those of the children before it. */
    method ChildGetMarks(node: Node, i: nat, firstLine: int, lastLine: int, nodeOffset: int, ghost start: int,
      total: seq<LineMark>)
      returns (r: seq<LineMark>)
      requires Sound() && Cached() && node in nodes && LiesAt(node, start) && !node.isBottom && i < |node.children|
      requires nodeOffset == start + |Before(node, i)|
      requires Current(Before(node, i), firstLine, lastLine, start)
      requires Reverse(total) == MarksIn(Before(node, i), firstLine, lastLine, start)
      modifies marks
      decreases node.height, 0
      ensures Current(Before(node, i + 1), firstLine, lastLine, start) && Cached() && SameLines()
      ensures Reverse(r) == MarksIn(Before(node, i + 1), firstLine, lastLine, start)
    {
      hide Shape, Sums, MarksOk, MarksIn, Before;
      var child := node.children[i];
      BeforeNext(node, i);
      BeforeApart(node, i);
      RootIn();
      ghost var done := Before(node, i);
      MarksInJoin(done, child.content, firstLine, lastLine, start);
      r := total;
      if child.nMarks != 0 {
        var childList := NodeGetMarks(child, firstLine, lastLine, nodeOffset);
        ReverseJoin(childList, total);
        r := childList + total;
      } else {
        NoMarksBelow(child);
        MarksInNone(child.content, firstLine, lastLine, nodeOffset);
      }
      forall k, m | 0 <= k < |done| && firstLine <= start + k <= lastLine && m in done[k].marks && m in marks
        ensures m.stamp == stamp
      {
        assert m.line == done[k] == node.content[k];
      }
      CurrentJoin(done, child.content, firstLine, lastLine, start);
    }

    /** The marks below a node on the lines first..last, last one first; subtrees without marks and out of
        range are skipped. */
    method NodeGetMarks(node: Node, firstLine: int, lastLine: int, nodeOffset: int) returns (total: seq<LineMark>)
      requires Sound() && Cached() && node in nodes && LiesAt(node, nodeOffset)
      modifies marks
      decreases node.height, 1
      ensures Reverse(total) == MarksIn(node.content, firstLine, lastLine, nodeOffset)
      ensures Current(node.content, firstLine, lastLine, nodeOffset) && Cached() && SameLines()
    {
      hide Shape, Sums, MarksOk, Current, MarksIn, Before, NodeOk;
      total := [];
      NodeCount(node);
      if node.nMarks == 0 {
        NoMarksBelow(node);
        NoneListed(node.content, firstLine, lastLine, nodeOffset);
        return;
      }
      if lastLine < nodeOffset || firstLine >= nodeOffset + node.count {
        NoneListed(node.content, firstLine, lastLine, nodeOffset);
        return;
      }
      if node.isBottom {
        total := BottomMarks(node, firstLine, lastLine, nodeOffset);
      } else {
        var i, offset := 0, nodeOffset;
        NoneListed([], firstLine, lastLine, nodeOffset);
        ChildrenStart(node);
        while i < |node.children|
          invariant 0 <= i <= |node.children| && offset == nodeOffset + |Before(node, i)|
          invariant Reverse(total) == MarksIn(Before(node, i), firstLine, lastLine, nodeOffset)
          invariant Current(Before(node, i), firstLine, lastLine, nodeOffset) && Cached() && SameLines()
        {
          BeforeNext(node, i);
          total := ChildGetMarks(node, i, firstLine, lastLine, offset, nodeOffset, total);
          offset := offset + node.children[i].count;
          i := i + 1;
          if lastLine < offset {
            break;
          }
        }
        RestNotListed(node, i, firstLine, lastLine, nodeOffset);
      }
    }

    lemma NodeCount(n: Node)
      requires Shape() && n in nodes
      ensures n.count == |n.content|
    {
      assert NodeOk(n);
    }

    lemma NoneListed(s: seq<Line>, first: int, last: int, offset: int)
      requires last < offset || offset + |s| <= first || forall d :: d in s ==> d.marks == []
      ensures MarksIn(s, first, last, offset) == [] && Current(s, first, last, offset)
    {
      MarksInNone(s, first, last, offset);
      assert forall k :: 0 <= k < |s| ==> s[k] in s;
    }

    lemma ChildrenStart(n: Node)
      requires Shape() && n in nodes && !n.isBottom
      ensures Before(n, 0) == [] && Before(n, |n.children|) == n.content
    {
      assert NodeOk(n);
      assert Contents(n.children)[..|n.children|] == Contents(n.children);
    }

    lemma RestNotListed(n: Node, i: nat, first: int, last: int, offset: int)
      requires Shape() && n in nodes && !n.isBottom && i <= |n.children|
      requires i == |n.children| || last < offset + |Before(n, i)|
      requires Current(Before(n, i), first, last, offset)
      ensures MarksIn(n.content, first, last, offset) == MarksIn(Before(n, i), first, last, offset)
      ensures Current(n.content, first, last, offset)
    {
      ChildrenStart(n);
      if i < |n.children| {
        BeforeNext(n, i);
        var rest := n.children[i].content + n.content[|Before(n, i + 1)|..];
        assert n.content == Before(n, i) + rest;
        MarksInJoin(Before(n, i), rest, first, last, offset);
        NoneListed(rest, first, last, offset + |Before(n, i)|);
        CurrentJoin(Before(n, i), rest, first, last, offset);
      }
    }

    /** A current line number is the number of the line the mark is on. */
    lemma CurrentNumbers(first: int, last: int)
      requires Valid() && Current(root.content, first, last, 0)
      ensures forall k, m :: 0 <= k < |root.content| && first <= k <= last && m in root.content[k].marks ==>
        m.lineNo == k && m.stamp == stamp
    {
      hide Sums, FullBut;
      RootFacts();
    }

    /** The marks on the lines from first to last, both included, line by line and with their line numbers current;
        a negative or too large last line stands for the end of the text. */
    method GetMarksInRange(firstLine: int, lastLine: int) returns (r: seq<LineMark>)
      requires Valid() && 0 <= firstLine
      modifies marks
      ensures Valid() && forall m :: m in marks ==> m.line == old(m.line)
      ensures firstLine <= lastLine < |root.content| ==> r == AllMarks(root.content[firstLine..lastLine + 1])
      ensures firstLine < |root.content| && (lastLine < 0 || |root.content| <= lastLine) ==>
        r == AllMarks(root.content[firstLine..])
      ensures |root.content| <= firstLine || 0 <= lastLine < firstLine ==> r == []
      ensures firstLine == lastLine < |root.content| ==> r == root.content[firstLine].marks
      ensures forall k, m ::
        firstLine <= k < |root.content| && (lastLine < 0 || k <= lastLine) && m in root.content[k].marks ==>
        m.lineNo == k && m.stamp == stamp
    {
      hide Shape, Sums, MarksOk, Current, MarksIn, AllMarks, NodeOk;
      RootFacts();
      r := [];
      if firstLine >= root.count {
        return;
      }
      var last := if lastLine < 0 || lastLine >= root.count then root.count - 1 else lastLine;
      if firstLine > last {
        return;
      }
      var total := NodeGetMarks(root, firstLine, last, 0);
      r := ReverseList(total);
      CurrentNumbers(firstLine, last);
      RangeIs(root.content, firstLine, last);
      AllMarksOne(root.content[firstLine]);
      assert root.content[firstLine..firstLine + 1] == [root.content[firstLine]];
      assert root.content[firstLine..|root.content|] == root.content[firstLine..];
    }

    lemma RootFacts()
      requires Shape()
      ensures root in nodes && root.parent == null && root.count == |root.content| && Distinct(root.content)
      ensures forall d :: d in root.content <==> d in lines
    {
      assert NodeOk(root);
      forall d | d in lines ensures d in root.content {
        LineIn(d);
      }
    }

    // ----- counting marks

    /** On each level one node holds a given line. */
    lemma SameLevel(n: Node, m: Node, d: Line)
      requires Shape() && n in nodes && m in nodes && n.height == m.height && d in n.content && d in m.content
      ensures n == m
      decreases n.height
    {
      assert NodeOk(n) && NodeOk(m);
      if !n.isBottom {
        var i := InConcat(Contents(n.children), d);
        var j := InConcat(Contents(m.children), d);
        SameLevel(n.children[i], m.children[j], d);
      }
    }

    /** A line's counter has changed by add: so has the sum over exactly the lists that hold it. */
    lemma Bumped(s: seq<Line>, d: Line, was: seq<int>, add: int)
      requires Distinct(s) && |was| == |s|
      requires forall k :: 0 <= k < |s| ==> s[k].nMarks == was[k] + if s[k] == d then add else 0
      ensures Sum(Weights(s)) == Sum(was) + if d in s then add else 0
    {
      hide Sum;
      if d in s {
        var k :| 0 <= k < |s| && s[k] == d;
        var now := was[k := was[k] + add];
        assert forall i :: 0 <= i < |s| ==> Weights(s)[i] == now[i];
        assert Weights(s) == now;
        SumBump(was, k, add);
      } else {
        assert forall i :: 0 <= i < |s| ==> Weights(s)[i] == was[i];
        assert Weights(s) == was;
      }
    }

    /** The counts the nodes must have after the counter of line d has changed by add. */
    ghost predicate CountsDue(was: map<Node, int>, d: Line, add: int, level: int)
      reads this`nodes, nodes`nMarks, nodes`content, nodes`height
    {
      was.Keys == nodes && forall n :: n in nodes ==>
        n.nMarks == was[n] + if d in n.content && n.height < level then add else 0
    }

    /** The way from a node above line d to the root. */
    lemma Upwards(n: Node, d: Line)
      requires Shape() && n in nodes && d in n.content
      ensures n.height <= root.height && (n.parent == null ==> n.height == root.height)
      ensures n.parent != null ==> n.parent in nodes && n.parent.height == n.height + 1 && d in n.parent.content
      ensures forall m :: m in nodes && m.height == n.height && d in m.content ==> m == n
    {
      assert NodeOk(n);
      if n.parent != null {
        ParentFacts(n);
        var i :| 0 <= i < |n.parent.children| && n.parent.children[i] == n;
        ChildAt(n.parent, i);
      }
      forall m | m in nodes && m.height == n.height && d in m.content ensures m == n {
        SameLevel(n, m, d);
      }
    }

    lemma Snapshot() returns (was: map<Node, int>, weights: map<Node, seq<int>>)
      requires Shape() && Sums()
      ensures was.Keys == nodes && weights.Keys == nodes
      ensures forall n :: n in nodes ==>
        was[n] == n.nMarks == Sum(weights[n]) && |weights[n]| == |n.content| && 0 <= n.height <= root.height
      ensures forall n, k :: n in nodes && 0 <= k < |n.content| ==> n.content[k].nMarks == weights[n][k]
    {
      was := map n | n in nodes :: n.nMarks;
      weights := map n | n in nodes :: Weights(n.content);
      forall n | n in nodes ensures n.height <= root.height {
        NodeFacts(n);
      }
    }

    lemma SumsDue(was: map<Node, int>, weights: map<Node, seq<int>>, d: Line, add: int)
      requires Shape() && weights.Keys == nodes && CountsDue(was, d, add, root.height + 1)
      requires forall n :: n in nodes ==> |weights[n]| == |n.content| && was[n] == Sum(weights[n])
      requires forall n, k :: n in nodes && 0 <= k < |n.content| ==>
        n.content[k].nMarks == weights[n][k] + if n.content[k] == d then add else 0
      ensures Sums()
    {
      forall n | n in nodes ensures (forall e :: e in n.content ==> e in lines) && n.nMarks == Total(n.content) {
        NodeFacts(n);
        Bumped(n.content, d, weights[n], add);
      }
    }

    lemma CountsStart(was: map<Node, int>, d: Line, add: int)
      requires was.Keys == nodes && forall n :: n in nodes ==> was[n] == n.nMarks
      ensures CountsDue(was, d, add, 0)
    {
    }

    method CountIn(node: Node, ghost d: Line, add: int, ghost was: map<Node, int>)
      requires node in nodes && d in node.content && CountsDue(was, d, add, node.height)
      requires forall m :: m in nodes && m.height == node.height && d in m.content ==> m == node
      modifies node`nMarks
      ensures CountsDue(was, d, add, node.height + 1)
    {
      node.nMarks := node.nMarks + add;
    }

    /** Adds to the mark counter of a line and of every node above it. */
    method UpdateNMarks(line: Line, add: int)
      requires Shape() && Sums() && line in lines
      modifies line`nMarks, nodes`nMarks
      ensures Shape() && Sums()
      ensures forall d :: d in lines ==> d.nMarks == old(d.nMarks) + if d == line then add else 0
    {
      hide Shape, Sums, CountsDue;
      ghost var was, weights := Snapshot();
      LineIn(line);
      CountsStart(was, line, add);
      line.nMarks := line.nMarks + add;
      var node: Node? := line.parent;
      while node != null
        invariant node != null ==> node in nodes && line in node.content
        invariant CountsDue(was, line, add, if node == null then root.height + 1 else node.height)
        decreases if node == null then 0 else root.height + 1 - node.height
        modifies nodes`nMarks
      {
        Upwards(node, line);
        CountIn(node, line, add, was);
        node := node.parent;
      }
      SumsDue(was, weights, line, add);
    }

    // ----- attaching and detaching marks

    lemma MarkFacts(m: LineMark)
      requires Shape() && MarksOk() && m in marks
      ensures m.line != null && m.line in lines && m in m.line.marks && m.line.nMarks == |m.line.marks|
    {
    }

    lemma NotOnLine(m: LineMark, d: Line)
      requires MarksOk() && d in lines && m.line != d
      ensures m !in d.marks && Distinct(d.marks + [m]) && (m.line == null ==> m !in marks)
    {
    }

    lemma LineMarksOk()
      requires MarksOk()
      ensures forall d :: d in lines ==> d.nMarks == |d.marks| && Distinct(d.marks)
      ensures forall d, m :: d in lines && m in d.marks ==> m in marks && m.line == d
    {
    }

    method LineAddMark(mark: LineMark, line: Line)
      requires Shape() && Sums() && line in lines
      modifies line`marks, lines`nMarks, nodes`nMarks
      ensures Shape() && Sums()
      ensures forall d :: d in lines ==> d.nMarks == old(d.nMarks) + if d == line then 1 else 0
      ensures line.marks == old(line.marks) + [mark]
    {
      hide Shape, Sums;
      line.marks := line.marks + [mark];
      UpdateNMarks(line, 1);
    }

    method AddMark(mark: LineMark, index: int)
      requires Valid() && 0 <= index && mark.line == null
      modifies this`marks, mark, lines`marks, lines`nMarks, nodes`nMarks
      ensures Valid()
      ensures index >= |root.content| ==> unchanged(mark) && marks == old(marks)
      ensures index < |root.content| ==> marks == old(marks) + {mark} && mark.line == root.content[index]
      ensures forall d :: d in lines ==>
        d.marks == old(d.marks) + if index < |root.content| && d == root.content[index] then [mark] else []
    {
      hide Shape, Sums, MarksOk, Cached;
      RootFacts();
      if index >= root.count {
        return;
      }
      var line := GetLine(index);
      NotOnLine(mark, line);
      LineAddMark(mark, line);
      mark.SetLine(line, index, stamp);
      marks := marks + {mark};
      MarkJoined(mark, line, index);
    }

    twostate lemma MarkJoined(new mark: LineMark, new line: Line, index: int)
      requires old(Valid()) && Shape() && Sums() && Full() && line in old(lines) && mark !in old(marks)
      requires lines == old(lines) && marks == old(marks) + {mark} && stamp == old(stamp) &&
        root.content == old(root.content)
      requires 0 <= index < |root.content| && root.content[index] == line
      requires mark.line == line && mark.lineNo == index && mark.stamp == stamp
      requires forall d :: d in lines ==> d.marks == old(d.marks) + if d == line then [mark] else []
      requires forall d :: d in lines ==> d.nMarks == old(d.nMarks) + if d == line then 1 else 0
      requires forall m :: m in old(marks) ==>
        m.line == old(m.line) && m.lineNo == old(m.lineNo) && m.stamp == old(m.stamp)
      ensures Valid()
    {
      hide Shape, Sums;
      assert forall d :: d in lines ==> d.nMarks == |d.marks| && Distinct(d.marks);
      assert forall d, m :: d in lines && m in d.marks ==> m in marks && m.line == d;
      assert forall m {:trigger m.line} :: m in marks ==> m.line != null && m.line in lines && m in m.line.marks;
    }

    /** Takes a mark off its line; the others keep their order. */
    method LineRemoveMark(mark: LineMark, line: Line) returns (ghost i: nat)
      requires Shape() && Sums() && line in lines && mark in line.marks
      modifies line`marks, lines`nMarks, nodes`nMarks
      ensures Shape() && Sums()
      ensures forall d :: d in lines ==> d.nMarks == old(d.nMarks) - if d == line then 1 else 0
      ensures i < |old(line.marks)| && old(line.marks)[i] == mark
      ensures line.marks == old(line.marks)[..i] + old(line.marks)[i + 1..]
    {
      hide Shape, Sums;
      var at := 0;
      while at < |line.marks| && line.marks[at] != mark
        invariant 0 <= at < |line.marks| && mark !in line.marks[..at]
      {
        at := at + 1;
      }
      line.marks := line.marks[..at] + line.marks[at + 1..];
      UpdateNMarks(line, -1);
      i := at;
    }

    method RemoveMark(mark: LineMark) returns (ghost line: Line, ghost i: nat)
      requires Valid() && mark in marks
      modifies this`marks, mark, lines`marks, lines`nMarks, nodes`nMarks
      ensures Valid() && marks == old(marks) - {mark} && mark.line == null
      ensures line == old(mark.line) && i < |old(line.marks)| && old(line.marks)[i] == mark
      ensures forall d :: d in lines ==>
        d.marks == if d == line then old(d.marks)[..i] + old(d.marks)[i + 1..] else old(d.marks)
    {
      hide Shape, Sums, MarksOk, Cached;
      MarkFacts(mark);
      LineMarksOk();
      line := mark.line;
      var at: Line := mark.line;
      RemovedEverywhere(mark, line);
      mark.SetLine(null, -1, 0);
      i := LineRemoveMark(mark, at);
      RemovedAt(old(line.marks), i);
      marks := marks - {mark};
      MarkLeft(mark);
    }

    lemma RemovedEverywhere(m: LineMark, d: Line)
      requires MarksOk() && m in marks && m.line == d
      ensures forall e :: e in lines && m in e.marks ==> e == d
    {
    }

    twostate lemma MarkLeft(mark: LineMark)
      requires old(Valid()) && Shape() && Sums() && Full() && mark in old(marks)
      requires lines == old(lines) && marks == old(marks) - {mark} && stamp == old(stamp) &&
        root.content == old(root.content)
      requires forall d, m :: d in lines ==> (m in d.marks <==> m in old(d.marks) && m != mark)
      requires forall d :: d in lines ==> Distinct(d.marks) && d.nMarks == |d.marks|
      requires forall m :: m in marks ==> m.line == old(m.line) && m.lineNo == old(m.lineNo) && m.stamp == old(m.stamp)
      ensures Valid()
    {
      hide Shape, Sums;
    }

    method MoveMark(mark: LineMark, index: int) returns (ghost i: nat)
      requires Valid() && mark in marks && 0 <= index
      modifies this`marks, mark, lines`marks, lines`nMarks, nodes`nMarks
      ensures Valid() && marks == old(marks)
      ensures mark.line == if index < |root.content| then root.content[index] else old(mark.line)
      ensures index < |root.content| ==> i < |old(mark.line.marks)| && old(mark.line.marks)[i] == mark
      ensures forall d :: d in lines ==>
        d.marks ==
          if index >= |root.content| then old(d.marks) else
            (if d == old(mark.line) then old(d.marks)[..i] + old(d.marks)[i + 1..] else old(d.marks)) +
            if d == root.content[index] then [mark] else []
    {
      hide Shape, Sums;
      RootFacts();
      i := 0;
      if index >= root.count {
        return;
      }
      ghost var line;
      line, i := RemoveMark(mark);
      AddMark(mark, index);
    }

    /** The line number of a mark, from its cache when the lines have not changed since. */
    method MarkLineNo(mark: LineMark) returns (lineNo: int)
      requires Valid() && mark in marks
      modifies mark
      ensures Valid() && mark.line == old(mark.line)
      ensures 0 <= lineNo < |root.content| && root.content[lineNo] == mark.line
    {
      hide Shape, Sums;
      MarkFacts(mark);
      if mark.stamp != stamp {
        mark.lineNo := LineIndex(mark.line);
        mark.stamp := stamp;
      }
      lineNo := mark.lineNo;
    }

    // ----- where a new line goes

    function Arity(n: Node): nat
      reads n`isBottom, n`data, n`children
    {
      if n.isBottom then |n.data| else |n.children|
    }

    /** Every node, except perhaps one, has children, a free place, and unless it is the root eight or more. */
    ghost predicate FullBut(at: Node?)
      reads this`root, this`nodes, nodes`isBottom, nodes`data, nodes`children
    {
      forall n {:trigger Arity(n)} :: n in nodes && n != at ==>
        1 <= Arity(n) < MAX_CAPACITY && (n != root ==> MIN_CAPACITY <= Arity(n))
    }

    ghost predicate Full()
      reads this`root, this`nodes, nodes`isBottom, nodes`data, nodes`children
    {
      FullBut(null)
    }

    lemma NotEmpty(n: Node)
      requires Shape() && Full() && n in nodes
      ensures n.content != [] && n.count == |n.content|
      decreases n.height
    {
      assert NodeOk(n) && 1 <= Arity(n);
      if !n.isBottom {
        NotEmpty(n.children[0]);
      }
    }

    /** All nodes but the root are half full at least, and none is full. */
    lemma Sizes(n: Node)
      requires Valid() && n in nodes
      ensures n.isBottom ==> 1 <= |n.data| < 16 && (n != root ==> 8 <= |n.data|)
      ensures !n.isBottom ==> 1 <= |n.children| < 16 && (n != root ==> 8 <= |n.children|)
    {
      assert 1 <= Arity(n);
    }

    /** So the lines grow exponentially with the levels. */
    lemma ManyLines(n: Node)
      requires Valid() && n in nodes && n != root
      ensures Power(8, n.height + 1) <= |n.content|
      decreases n.height
    {
      hide FullBut, Sums, MarksOk, Cached, Power;
      Sizes(n);
      assert NodeOk(n);
      PowerNext(8, n.height);
      if n.isBottom {
        PowerNone(8);
      } else {
        forall c | c in n.children ensures c in nodes && c != root && Power(8, n.height) <= |c.content| {
          assert NodeOk(c);
          ManyLines(c);
        }
        LongConcat(Contents(n.children), Power(8, n.height));
        Eightfold(|n.children|, Power(8, n.height));
      }
    }

    lemma Depth()
      requires Valid()
      ensures 0 < root.height ==> Power(8, root.height) <= |root.content|
    {
      hide FullBut, Sums, MarksOk, Cached, Power;
      RootFacts();
      if 0 < root.height {
        assert NodeOk(root);
        Sizes(root);
        forall c | c in root.children ensures Power(8, root.height) <= |c.content| {
          assert NodeOk(c);
          ManyLines(c);
        }
        LongConcat(Contents(root.children), Power(8, root.height));
        Once(|root.children|, Power(8, root.height));
      }
    }

    /** Place k in one list is place l in the other: the line at k + shift in the one is at l + shift in the other. */
    ghost predicate SamePlace(s: seq<Line>, k: int, t: seq<Line>, l: int, shift: int) {
      0 <= k + shift < |s| && 0 <= l + shift < |t| && s[k + shift] == t[l + shift]
    }

    /** The bottom node and the place in it where a new line gets the given number. */
    method FindPlace(index: int) returns (node: Node, at: int)
      requires Shape() && Full() && 0 <= index <= |root.content|
      ensures node in nodes && node.isBottom && 0 <= at <= |node.data|
      ensures SamePlace(node.content, at, root.content, index, if index == 0 then 0 else -1)
    {
      hide Shape, NodeOk, Before;
      node, at := root, index;
      RootIn();
      NotEmpty(root);
      while !node.isBottom
        invariant node in nodes && 0 <= at <= |node.content| && node.content != [] && (index == 0 <==> at == 0)
        invariant SamePlace(node.content, at, root.content, index, if index == 0 then 0 else -1)
        decreases node.height
      {
        var i := 0;
        ChildrenStart(node);
        BeforeNext(node, 0);
        while at > node.children[i].count
          invariant 0 <= i < |node.children|
          invariant 0 <= at && at + |Before(node, i)| <= |node.content| && (index == 0 <==> at == 0)
          invariant SamePlace(node.content, |Before(node, i)| + at, root.content, index, if index == 0 then 0 else -1)
          decreases |node.children| - i
        {
          BeforeNext(node, i);
          at := at - node.children[i].count;
          i := i + 1;
        }
        BeforeNext(node, i);
        NotEmpty(node.children[i]);
        NodeCount(node.children[i]);
        node := node.children[i];
      }
      BottomData(node);
    }

    lemma BottomData(n: Node)
      requires Shape() && n in nodes && n.isBottom
      ensures n.content == n.data && n.height == 0 && n.children == []
    {
      assert NodeOk(n);
    }

    // ----- changing the lines of one bottom node

    /** Everything NodeOk says except about the lines below the node. */
    ghost predicate Placed(n: Node)
      requires root in nodes && n in nodes
      reads this`root, this`nodes, nodes`parent, nodes`children, nodes`data, nodes`height, nodes`isBottom
    {
      && n.height <= root.height
      && (n.parent == null <==> n == root)
      && (n.parent != null ==> n.parent in nodes && n in n.parent.children)
      && (n.isBottom <==> n.height == 0)
      && (n.isBottom ==> n.children == [])
      && (!n.isBottom ==> n.data == [])
      && Distinct(n.children)
      && (forall c :: c in n.children ==> c in nodes && c.parent == n && c.height + 1 == n.height)
    }

    /** What the lines below a node must be. */
    ghost function Below(n: Node): seq<Line>
      reads n`isBottom, n`data, n`children, n.children`content
    {
      if n.isBottom then n.data else Concat(Contents(n.children))
    }

    /** The tree is well-formed but for the line on its way out, if any, and for node at, if any, whose lines
        and counts are not yet what they are due to be. */
    ghost predicate ShapeBut(at: Node?, due: seq<Line>, gone: Line?)
      reads this`root, this`nodes, this`lines, nodes`parent, nodes`children, nodes`data, nodes`content, nodes`height,
            nodes`isBottom, nodes`count, lines`parent
    {
      var ok :=
        && root in nodes
        && (forall n {:trigger NodeOk(n)} :: n in nodes && n != at ==> NodeOk(n))
        && (forall d {:trigger d.parent} :: d in lines && d != gone ==> d.parent in nodes && d in d.parent.data)
        && (at != null ==> at in nodes && Placed(at) && at.count == |at.content| && Below(at) == due);
      ok
    }

    /** Places k to k + w in one list are places l to l + w in the other. */
    ghost predicate Aligned(s: seq<Line>, k: nat, w: nat, t: seq<Line>, l: nat) {
      && k + w <= |s| && l + w <= |t| && t[l..l + w] == s[k..k + w]
      && forall shift {:trigger SamePlace(s, k, t, l, shift)} :: 0 <= k + shift < |s| ==> SamePlace(s, k, t, l, shift)
    }

    /** Brings a node up to date; then its parent is due for the same change. */
    method Recount(node: Node, delta: int, marksDelta: int, ghost k: nat, ghost w: nat, ghost x: seq<Line>,
      ghost gone: Line?) returns (ghost up: nat)
      requires node in nodes && k + w <= |node.content| && delta == |x| - w
      requires ShapeBut(node, Splice(node.content, k, w, x), gone)
      requires Distinct(Splice(node.content, k, w, x))
      requires forall d :: d in Splice(node.content, k, w, x) ==> d in lines && (node.isBottom ==> d.parent == node)
      requires Sums()
      requires marksDelta == Total(x) - Total(node.content[k..k + w])
      modifies node`count, node`nMarks, node`content
      ensures Sums()
      ensures node.content == Splice(old(node.content), k, w, x) && node.count == old(node.count) + delta
      ensures if node.parent == null then node == root && ShapeBut(null, [], gone) else
        && node.parent in nodes && node.parent.height == node.height + 1
        && Aligned(old(node.content), k, w, node.parent.content, up)
        && ShapeBut(node.parent, Splice(node.parent.content, up, w, x), gone)
    {
      hide NodeOk, ShapeBut, Placed, Total, Sums, Concat, Contents, Aligned, Splice;
      ghost var p, i := node.parent, 0;
      RecountFacts(node, Splice(node.content, k, w, x), gone);
      up := k;
      ghost var due: seq<Line> := [];
      if p != null {
        i, up, due := DueAbove(node, p, k, w, x);
      }
      ghost var ss := if p == null then [] else Contents(p.children);
      SumOf(node);
      TotalSplice(node.content, k, w, x);
      node.count := node.count + delta;
      node.nMarks := node.nMarks + marksDelta;
      node.content := Splice(node.content, k, w, x);
      if p != null {
        assert Contents(p.children) == ss[i := node.content];
        assert Below(p) == Concat(ss[i := node.content]) == due;
      }
      RecountOthers(node, p, gone);
      SumsAgain(node);
      ShapeButHolds(p, due, gone);
    }

    lemma SumOf(n: Node)
      requires Sums() && n in nodes
      ensures n.nMarks == Total(n.content)
    {
    }

    twostate lemma SumsAgain(new node: Node)
      requires old(Sums()) && unchanged(this) && node in nodes && node.nMarks == Total(node.content)
      requires forall d :: d in node.content ==> d in lines
      requires forall n {:trigger n.nMarks} :: n in nodes && n != node ==>
        n.nMarks == old(n.nMarks) && n.content == old(n.content)
      requires forall d {:trigger d.nMarks} :: d in lines ==> d.nMarks == old(d.nMarks)
      ensures Sums()
    {
      hide Total;
      forall n | n in nodes && n != node
        ensures (forall d :: d in n.content ==> d in lines) && n.nMarks == Total(n.content)
      {
        assert n.nMarks == old(n.nMarks);
        TotalKept(n.content);
      }
    }

    twostate lemma TotalKept(s: seq<Line>)
      requires forall d :: d in s ==> d.nMarks == old(d.nMarks)
      ensures Total(s) == old(Total(s))
    {
      assert Weights(s) == old(Weights(s));
    }

    /** The same change as seen from the parent. */
    lemma DueAbove(node: Node, p: Node, k: nat, w: nat, x: seq<Line>) returns (i: nat, up: nat, due: seq<Line>)
      requires !p.isBottom && node in p.children && p.content == Below(p) && k + w <= |node.content|
      ensures i < |p.children| && p.children[i] == node && up == |Before(p, i)| + k
      ensures Aligned(node.content, k, w, p.content, up) && due == Splice(p.content, up, w, x)
      ensures Concat(Contents(p.children)[i := Splice(node.content, k, w, x)]) == due
    {
      hide Concat, Splice, Aligned;
      i :| i < |p.children| && p.children[i] == node;
      up := |Before(p, i)| + k;
      ConcatUpdate(Contents(p.children), i, k, w, x);
      PieceAligned(node.content, k, w, p.content, |Before(p, i)|);
      due := Splice(p.content, up, w, x);
    }

    lemma PieceAligned(s: seq<Line>, k: nat, w: nat, t: seq<Line>, b: nat)
      requires k + w <= |s| && b + |s| <= |t| && t[b..b + |s|] == s
      ensures Aligned(s, k, w, t, b + k)
    {
      SliceOfSlice(t, b, |s|, k, w);
      forall shift {:trigger SamePlace(s, k, t, b + k, shift)} | 0 <= k + shift < |s|
        ensures SamePlace(s, k, t, b + k, shift)
      {
        assert t[b..b + |s|][k + shift] == t[b + k + shift];
      }
    }

    lemma RecountFacts(node: Node, due: seq<Line>, gone: Line?)
      requires ShapeBut(node, due, gone) && node in nodes
      ensures root in nodes && Placed(node) && node.count == |node.content| && Below(node) == due &&
        node.height <= root.height
      ensures forall n {:trigger NodeOk(n)} :: n in nodes && n != node ==> NodeOk(n)
      ensures forall d {:trigger d.parent} :: d in lines && d != gone ==> d.parent in nodes && d in d.parent.data
      ensures node.parent == null ==> node == root
      ensures node.parent != null ==>
        && node.parent in nodes && Placed(node.parent) && !node.parent.isBottom && node in node.parent.children
        && node.parent != node && node.parent.height == node.height + 1 && node.parent.content == Below(node.parent) &&
          node.parent.count == |node.parent.content|
        && Distinct(node.parent.children)
    {
      assert node.parent != null ==> NodeOk(node.parent);
    }

    lemma ShapeButHolds(at: Node?, due: seq<Line>, gone: Line?)
      requires root in nodes
      requires forall n {:trigger NodeOk(n)} :: n in nodes && n != at ==> NodeOk(n)
      requires forall d {:trigger d.parent} :: d in lines && d != gone ==> d.parent in nodes && d in d.parent.data
      requires at != null ==> at in nodes && Placed(at) && at.count == |at.content| && Below(at) == due
      ensures ShapeBut(at, due, gone)
    {
    }

    twostate lemma RecountOthers(new node: Node, new p: Node?, new gone: Line?)
      requires old(root in nodes) && unchanged(this) && node in nodes && p == node.parent
      requires forall n :: n in old(nodes) && n != node ==> old(NodeOk(n))
      requires old(Placed(node)) && node.content == Below(node) && node.count == |node.content|
      requires Distinct(node.content)
      requires forall d :: d in node.content ==> d in lines && (node.isBottom ==> d.parent == node)
      requires forall d :: d in lines ==> d.parent == old(d.parent)
      requires forall n :: n in nodes ==>
        && n.parent == old(n.parent) && n.children == old(n.children) && n.data == old(n.data) &&
          n.height == old(n.height)
        && n.isBottom == old(n.isBottom) && (n != node ==> n.content == old(n.content) && n.count == old(n.count))
      ensures forall n :: n in nodes && n != p ==> NodeOk(n)
    {
      forall n | n in nodes && n != p ensures NodeOk(n) {
        if n != node {
          assert old(NodeOk(n)) && node !in n.children;
          assert n.isBottom || Contents(n.children) == old(Contents(n.children));
        }
      }
    }

    /** Puts a new line into a bottom node. */
    method PutLine(node: Node, at: nat) returns (d: Line)
      requires Shape() && node in nodes && node.isBottom && at <= |node.data|
      requires Sums()
      modifies this`lines, node`data
      ensures fresh(d) && d.nMarks == 0 && d.marks == [] && d.parent == node && lines == old(lines) + {d}
      ensures Due(node, at, [], [d], null) && Sums() && |node.data| == |old(node.data)| + 1
    {
      hide NodeOk, ShapeBut, Shape, Total;
      BottomData(node);
      KnownLines();
      d := new Line(node);
      node.data := node.data[..at] + [d] + node.data[at..];
      lines := lines + {d};
      PutLineShape(node, d, at);
    }

    lemma KnownLines()
      requires Shape()
      ensures forall n {:trigger n.content} :: n in nodes ==> Distinct(n.content) && forall d :: d in n.content ==>
        d in lines
      ensures forall n :: n in nodes && n.isBottom ==> forall d :: d in n.content ==> d.parent == n
    {
      forall n | n in nodes ensures Distinct(n.content) && forall d :: d in n.content ==>
        d in lines && (n.isBottom ==> d.parent == n)
      {
        NodeFacts(n);
      }
    }

    /** A node that nobody has touched, with children whose lines are the same, is as good as before. */
    twostate lemma NodeKept(new n: Node)
      requires n in old(nodes) && n in nodes && old(root in nodes) && root in nodes && old(NodeOk(n))
      requires n.children == old(n.children) && n.data == old(n.data) && n.content == old(n.content)
      requires n.height == old(n.height) && n.isBottom == old(n.isBottom) && n.count == old(n.count)
      requires n.height <= root.height && (n.parent == null <==> n == root)
      requires n.parent != null ==> n.parent in nodes && n in n.parent.children
      requires forall d :: d in n.content ==> d in lines && (n.isBottom ==> d.parent == n)
      requires forall c :: c in n.children ==>
        c in nodes && c.parent == n && c.height == old(c.height) && c.content == old(c.content)
      ensures NodeOk(n)
    {
      assert n.isBottom || Contents(n.children) == old(Contents(n.children));
    }

    twostate lemma PutLineShape(new node: Node, new d: Line, new at: nat)
      requires old(Shape()) && node in old(nodes) && node.isBottom && at <= |node.content| &&
        old(node.data) == node.content
      requires root == old(root) && nodes == old(nodes) && lines == old(lines) + {d} && d.parent == node
      requires node.data == Splice(node.content, at, 0, [d])
      requires forall e :: e in old(lines) ==> e.parent == old(e.parent)
      requires forall n :: n in nodes ==>
        && n.parent == old(n.parent) && n.children == old(n.children) && n.height == old(n.height)
        && n.isBottom == old(n.isBottom) && n.content == old(n.content) && n.count == old(n.count)
        && (n != node ==> n.data == old(n.data))
      ensures ShapeBut(node, Splice(node.content, at, 0, [d]), null)
    {
      hide ShapeBut;
      assert forall e :: e in node.content ==> e in node.content[..at] || e in node.content[at..];
      assert old(NodeOk(node));
      forall n | n in nodes && n != node ensures NodeOk(n) {
        assert old(NodeOk(n));
        NodeKept(n);
      }
      ShapeButHolds(node, Splice(node.content, at, 0, [d]), null);
    }


    /** The nodes from some height on hold different lines of the buffer, none of them in x. */
    ghost predicate Known(x: seq<Line>, level: nat)
      reads this`nodes, this`lines, nodes`content, nodes`height
    {
      forall n {:trigger n.height} :: n in nodes && level <= n.height ==> Distinct(n.content) && forall d ::
        d in n.content ==> d in lines && d !in x
    }

    lemma PlaceIs(s: seq<Line>, k: nat, l: nat, shift: int)
      requires Distinct(s) && SamePlace(s, k, s, l, shift)
      ensures k == l
    {
    }

    /** The change in one node, on the way up. */
    method RecountNext(tmp: Node, delta: int, marksDelta: int, ghost k: nat, ghost removed: seq<Line>,
      ghost x: seq<Line>,
                       ghost gone: Line?, ghost index: nat, ghost shift: int)
      returns (ghost up: nat)
      requires Due(tmp, k, removed, x, gone) && Sums() && Distinct(x)
      requires SamePlace(tmp.content, k, root.content, index, shift)
      requires delta == |x| - |removed| && marksDelta == Total(x) - Total(removed)
      modifies tmp`count, tmp`nMarks, tmp`content
      ensures Sums()
      ensures if tmp.parent == null then
          && ShapeBut(null, [], gone) && index + |removed| <= |old(root.content)|
          && root.content == Splice(old(root.content), index, |removed|, x)
        else
          && Due(tmp.parent, up, removed, x, gone) && root.content == old(root.content)
          && tmp.parent.height == tmp.height + 1 && !tmp.parent.isBottom &&
            SamePlace(tmp.parent.content, up, root.content, index, shift)
    {
      hide ShapeBut, Sums, Total, Splice, Placed, NodeOk;
      ghost var s, w := tmp.content, |removed|;
      RecountFacts(tmp, Splice(s, k, w, x), gone);
      SpliceDistinct(s, k, w, x);
      if tmp.parent == null {
        PlaceIs(s, k, index, shift);
      }
      up := Recount(tmp, delta, marksDelta, k, w, x, gone);
      if tmp.parent != null {
        assert SamePlace(s, k, tmp.parent.content, up, shift);
      }
    }

    /** A node is next on the way up: lines x are due in the place of some of its lines. */
    ghost predicate Due(n: Node, k: nat, removed: seq<Line>, x: seq<Line>, gone: Line?)
      reads this`root, this`nodes, this`lines, nodes`parent, nodes`children, nodes`data, nodes`content, nodes`height,
            nodes`isBottom, nodes`count, lines`parent
    {
      && n in nodes && k + |removed| <= |n.content| && n.content[k..k + |removed|] == removed
      && Known(x, n.height) && (forall d :: d in x ==> d in lines)
      && (n.isBottom ==> forall d :: d in Splice(n.content, k, |removed|, x) ==> d in lines && d.parent == n)
      && ShapeBut(n, Splice(n.content, k, |removed|, x), gone)
    }

    lemma DueIn(n: Node, k: nat, removed: seq<Line>, x: seq<Line>, gone: Line?)
      requires Due(n, k, removed, x, gone)
      ensures n in nodes && n.height <= root.height
    {
    }

    /** Makes the change in the lines of every node from `node` up to the root. */
    method RecountUp(node: Node, delta: int, marksDelta: int, ghost at: nat, ghost removed: seq<Line>,
      ghost x: seq<Line>,
                     ghost gone: Line?, ghost index: nat, ghost shift: int)
      requires Due(node, at, removed, x, gone) && Sums() && Distinct(x)
      requires SamePlace(node.content, at, root.content, index, shift)
      requires delta == |x| - |removed| && marksDelta == Total(x) - Total(removed)
      modifies nodes`count, nodes`nMarks, nodes`content
      ensures ShapeBut(null, [], gone) && Sums()
      ensures index + |removed| <= |old(root.content)| && root.content == Splice(old(root.content), index, |removed|, x)
    {
      hide ShapeBut, Sums, Total, Splice, Placed, NodeOk, Known, Due, SamePlace;
      var tmp: Node? := node;
      ghost var k: nat := at;
      while tmp != null
        invariant if tmp == null then
            && ShapeBut(null, [], gone) && index + |removed| <= |old(root.content)|
            && root.content == Splice(old(root.content), index, |removed|, x)
          else
            && Due(tmp, k, removed, x, gone) && root.content == old(root.content)
            && SamePlace(tmp.content, k, root.content, index, shift)
        invariant Sums()
        decreases if tmp == null then 0 else 1 + root.height - tmp.height
      {
        DueIn(tmp, k, removed, x, gone);
        k := RecountNext(tmp, delta, marksDelta, k, removed, x, gone, index, shift);
        if tmp.parent != null {
          DueIn(tmp.parent, k, removed, x, gone);
        }
        tmp := tmp.parent;
      }
    }

    /** Every line of a bottom node is a line of the root. */
    lemma Reaches(n: Node, d: Line, gone: Line?)
      requires ShapeBut(null, [], gone) && n in nodes && d in n.content
      ensures d in root.content
      decreases root.height - n.height
    {
      assert NodeOk(n);
      if n != root {
        var p := n.parent;
        assert NodeOk(p);
        var i :| 0 <= i < |p.children| && p.children[i] == n;
        ConcatPiece(Contents(p.children), i);
        Reaches(p, d, gone);
      }
    }

    lemma ShapeAgain()
      requires ShapeBut(null, [], null)
      ensures Shape()
    {
      forall d | d in lines ensures d in root.content && d.parent in nodes && d in d.parent.data {
        assert NodeOk(d.parent);
        Reaches(d.parent, d, null);
      }
      ShapeHolds();
    }

    // ----- splitting and joining nodes

    /** An empty node, new on the right of child i of p. */
    method AddSibling(p: Node, i: nat) returns (b: Node)
      requires Shape() && Sums() && p in nodes && !p.isBottom && i < |p.children|
      modifies this`nodes, p`children
      ensures Shape() && Sums() && fresh(b) && nodes == old(nodes) + {b}
      ensures p.children == old(p.children)[..i + 1] + [b] + old(p.children)[i + 1..]
      ensures b.isBottom == p.children[i].isBottom && b.children == [] && b.data == []
    {
      hide Shape, Sums, NodeOk;
      ChildFacts(p, i);
      b := new Node(p.children[i].isBottom);
      b.parent := p;
      b.height, b.content := p.children[i].height, [];
      p.children := p.children[..i + 1] + [b] + p.children[i + 1..];
      nodes := nodes + {b};
      SiblingAdded(p, i, b);
      SumsWith(b);
    }

    lemma ChildFacts(p: Node, i: nat)
      requires Shape() && p in nodes && i < |p.children|
      ensures p.children[i] in nodes && p.children[i].parent == p && p.children[i].height + 1 == p.height && !p.isBottom
      ensures NodeOk(p) && NodeOk(p.children[i])
    {
      assert NodeOk(p) && NodeOk(p.children[i]);
    }

    twostate lemma SumsWith(new b: Node)
      requires old(Sums()) && nodes == old(nodes) + {b} && b.content == [] && b.nMarks == 0 && lines == old(lines)
      requires forall n {:trigger n.nMarks} :: n in old(nodes) ==>
        n.nMarks == old(n.nMarks) && n.content == old(n.content)
      requires forall d {:trigger d.nMarks} :: d in lines ==> d.nMarks == old(d.nMarks)
      ensures Sums()
    {
      forall n | n in nodes ensures (forall d :: d in n.content ==> d in lines) && n.nMarks == Total(n.content) {
        if n != b {
          assert old(n.nMarks) == n.nMarks;
          TotalKept(n.content);
        }
      }
    }

    /** Nothing has changed but for an empty node b on the right of child i of p. */
    twostate predicate WithSibling(new p: Node, new i: nat, new b: Node)
      requires p in old(nodes) && i < |old(p.children)|
      reads this, nodes, lines, p, b
    {
      && nodes == old(nodes) + {b} && b !in old(nodes)
      && root == old(root) && lines == old(lines)
      && p.children == old(p.children)[..i + 1] + [b] + old(p.children)[i + 1..]
      && b.parent == p && b.height == old(p.children[i].height) && b.isBottom == old(p.children[i].isBottom)
      && b.children == [] && b.data == [] && b.content == [] && b.count == 0
      && (forall n :: n in old(nodes) ==>
        && n.parent == old(n.parent) && n.data == old(n.data) && n.content == old(n.content) &&
          n.height == old(n.height)
        && n.isBottom == old(n.isBottom) && n.count == old(n.count) && (n != p ==> n.children == old(n.children)))
      && (forall d {:trigger d.parent} :: d in lines ==> d.parent == old(d.parent))
    }

    twostate lemma SiblingAdded(new p: Node, new i: nat, new b: Node)
      requires old(Shape()) && p in old(nodes) && i < |old(p.children)| && WithSibling(p, i, b)
      ensures Shape()
    {
      hide NodeOk, WithSibling, Shape;
      SiblingParent(p, i, b);
      SiblingRest(p, i, b);
      forall n | n in nodes ensures NodeOk(n) {
        if n != p {
          SiblingOther(p, i, b, n);
        }
      }
      ShapeHolds();
    }

    lemma ShapeHolds()
      requires root in nodes && forall n :: n in nodes ==> NodeOk(n)
      requires forall d :: d in lines ==> d in root.content && d.parent in nodes && d in d.parent.data
      ensures Shape()
    {
    }

    twostate lemma SiblingRest(new p: Node, new i: nat, new b: Node)
      requires old(Shape()) && p in old(nodes) && i < |old(p.children)| && WithSibling(p, i, b)
      ensures root in nodes && forall d :: d in lines ==> d in root.content && d.parent in nodes && d in d.parent.data
    {
      forall d | d in lines ensures d in root.content && d.parent in nodes && d in d.parent.data {
        assert d.parent == old(d.parent);
      }
    }

    twostate lemma SiblingParent(new p: Node, new i: nat, new b: Node)
      requires old(Shape()) && p in old(nodes) && i < |old(p.children)| && WithSibling(p, i, b)
      ensures p in nodes && root in nodes && NodeOk(p)
      ensures Distinct(p.children) && forall e :: e in p.children <==> e in old(p.children) || e == b
    {
      hide Concat, Distinct, Contents;
      assert old(NodeOk(p)) && old(NodeOk(p.children[i]));
      SiblingContent(p, i, b);
      InsertedAt(old(p.children), i + 1, b);
    }

    twostate lemma SiblingContent(new p: Node, new i: nat, new b: Node)
      requires old(Shape()) && p in old(nodes) && i < |old(p.children)| && WithSibling(p, i, b)
      ensures Concat(Contents(p.children)) == old(Concat(Contents(p.children)))
    {
      hide Concat, Contents;
      assert old(NodeOk(p));
      ConcatInserted(old(Contents(p.children)), Contents(p.children), i + 1);
    }

    twostate lemma SiblingOther(new p: Node, new i: nat, new b: Node, new n: Node)
      requires old(Shape()) && p in old(nodes) && i < |old(p.children)| && WithSibling(p, i, b) && n in nodes && n != p
      ensures root in nodes && NodeOk(n)
    {
      assert old(NodeOk(p)) && old(NodeOk(p.children[i]));
      SiblingParent(p, i, b);
      if n != b {
        assert old(NodeOk(n));
        NodeKept(n);
      }
    }

    /** The lines below the first k of the children of two neighbours. */
    ghost function FirstLines(a: Node, b: Node, k: nat): seq<Line>
      requires k <= Arity(a) + Arity(b) && a.isBottom == b.isBottom
      reads a`isBottom, a`data, a`children, b`isBottom, b`data, b`children, a.children`content, b.children`content
    {
      if a.isBottom then (a.data + b.data)[..k] else Concat(Contents((a.children + b.children)[..k]))
    }

    /** What two neighbours have below them together. */
    lemma BelowBoth(a: Node, b: Node)
      requires a.isBottom == b.isBottom
      ensures Below(a) + Below(b) == if a.isBottom then a.data + b.data else Concat(Contents(a.children + b.children))
    {
      hide Concat;
      if !a.isBottom {
        assert Contents(a.children + b.children) == Contents(a.children) + Contents(b.children);
        ConcatJoin(Contents(a.children), Contents(b.children));
      }
    }

    /** Children i and i + 1 of p have shared their children out anew: the left one has the first k of them. */
    twostate predicate Shared(new p: Node, new i: nat, new k: nat)
      requires p in old(nodes) && i + 1 < |p.children|
      reads this, nodes, lines, p, p.children, p.children[i].children, p.children[i + 1].children
    {
      var a, b := p.children[i], p.children[i + 1];
      && nodes == old(nodes) && p.children == old(p.children) && a in nodes && b in nodes && root == old(root) &&
        lines == old(lines)
      && a.children + b.children == old(a.children + b.children) && a.data + b.data == old(a.data + b.data)
      && Arity(a) == k
      && a.content == Below(a) && b.content == Below(b) && a.count == |a.content| && b.count == |b.content|
      && (forall n :: n in nodes ==>
        && n.height == old(n.height) && n.isBottom == old(n.isBottom)
        && (n.parent == if n in a.children then a else if n in b.children then b else old(n.parent))
        && (n != a && n != b ==>
          n.children == old(n.children) && n.data == old(n.data) &&
          n.content == old(n.content) && n.count == old(n.count)))
      && (forall d {:trigger d.parent} :: d in lines ==>
        d.parent == if d in a.data then a else if d in b.data then b else old(d.parent))
    }

    twostate lemma SharedFacts(new p: Node, new i: nat, new k: nat)
      requires old(Shape()) && p in old(nodes) && i + 1 < |p.children|
      requires Shared(p, i, k)
      ensures var a, b := p.children[i], p.children[i + 1];
        && a in old(nodes) && b in old(nodes)
        && old(NodeOk(p) && NodeOk(a) && NodeOk(b)) && a != b && p != a && p != b && p.children == old(p.children)
        && (forall j :: 0 <= j < |p.children| && j != i && j != i + 1 ==>
          p.children[j].content == old(p.children[j].content))
        && (forall j :: 0 <= j < |a.children + b.children| ==>
            (a.children + b.children)[j] in old(nodes) &&
              (a.children + b.children)[j].content == old((a.children + b.children)[j].content))
        && a.content == Below(a) && b.content == Below(b) && old(a.content == Below(a) && b.content == Below(b))
        && a.children + b.children == old(a.children + b.children) && a.data + b.data == old(a.data + b.data)
        && a.isBottom == old(a.isBottom) == b.isBottom == old(b.isBottom)
    {
      hide Concat, Contents;
      assert old(NodeOk(p)) && old(NodeOk(p.children[i])) && old(NodeOk(p.children[i + 1]));
    }

    twostate lemma SharedKin(new p: Node, new i: nat, new k: nat)
      requires old(Shape()) && p in old(nodes) && i + 1 < |p.children| && Shared(p, i, k)
      ensures var a, b := p.children[i], p.children[i + 1];
        && (forall c :: c in a.children || c in b.children ==> c in nodes && c.height + 1 == a.height == b.height)
        && (forall d :: d in old(a.content) || d in old(b.content) ==> d in lines)
        && (a.isBottom ==> a.children == b.children == []) && (!a.isBottom ==> a.data == b.data == [])
        && a.parent == b.parent == p && p.parent == old(p.parent) && a.height + 1 == p.height
    {
      hide Concat, Contents;
      var a, b := p.children[i], p.children[i + 1];
      assert old(NodeOk(p)) && old(NodeOk(p.children[i])) && old(NodeOk(p.children[i + 1]));
      SameElements(a.children, b.children, old(a.children), old(b.children));
      assert a.data + b.data == old(a.data) + old(b.data);
    }

    twostate lemma SharedContent(new p: Node, new i: nat, new k: nat)
      requires old(Shape()) && p in old(nodes) && i + 1 < |p.children|
      requires Shared(p, i, k)
      ensures var a, b := p.children[i], p.children[i + 1];
        a.content + b.content == old(a.content + b.content)
      ensures p.children == old(p.children) && Concat(Contents(p.children)) == old(Concat(Contents(p.children)))
    {
      hide Concat, Contents, Below, Shape, Shared;
      SharedFacts(p, i, k);
      var a, b := p.children[i], p.children[i + 1];
      BelowBoth(a, b);
      OldBelowBoth(a, b);
      SameContents(a.children + b.children);
      ConcatShared(old(Contents(p.children)), Contents(p.children), i);
    }

    twostate lemma SameContents(ns: seq<Node>)
      requires forall j :: 0 <= j < |ns| ==> ns[j].content == old(ns[j].content)
      ensures Contents(ns) == old(Contents(ns))
    {
    }

    twostate lemma OldBelowBoth(new a: Node, new b: Node)
      requires a in old(nodes) && b in old(nodes) && old(a.isBottom == b.isBottom)
      ensures old(Below(a) + Below(b)) == if old(a.isBottom) then old(a.data + b.data)
        else old(Concat(Contents(a.children + b.children)))
    {
      hide Concat;
      if old(!a.isBottom) {
        assert old(Contents(a.children + b.children)) == old(Contents(a.children)) + old(Contents(b.children));
        ConcatJoin(old(Contents(a.children)), old(Contents(b.children)));
      }
    }

    /** Neighbours have different children and different lines. */
    lemma NeighboursApart(p: Node, i: nat)
      requires Shape() && p in nodes && i + 1 < |p.children|
      ensures var a, b := p.children[i], p.children[i + 1];
        Distinct(a.children + b.children) && Distinct(a.content + b.content) && Distinct(a.data + b.data)
    {
      hide Concat, Contents;
      assert NodeOk(p);
      var a, b := p.children[i], p.children[i + 1];
      assert NodeOk(a) && NodeOk(b);
      JoinDistinct(a.children, b.children);
      ConcatTwo(Contents(p.children), i);
      var x, y := Concat(Contents(p.children)[..i]), Concat(Contents(p.children)[i + 2..]);
      PartsDistinct(x + (a.content + b.content), y);
      PartsDistinct(x, a.content + b.content);
    }

    twostate lemma SharedParent(new p: Node, new i: nat, new k: nat)
      requires old(Shape()) && p in old(nodes) && i + 1 < |p.children| && Shared(p, i, k)
      ensures root in nodes && p in nodes && NodeOk(p)
    {
      hide Concat, Contents;
      SharedFacts(p, i, k);
      SharedContent(p, i, k);
      SharedKin(p, i, k);
    }

    twostate lemma SharedNeighbours(new p: Node, new i: nat, new k: nat)
      requires old(Shape()) && p in old(nodes) && i + 1 < |p.children| && Shared(p, i, k)
      requires var a, b := p.children[i], p.children[i + 1];
        Distinct(a.children + b.children) && Distinct(a.content + b.content) && Distinct(a.data + b.data)
      ensures root in nodes && p.children[i] in nodes && NodeOk(p.children[i]) && p.children[i + 1] in nodes &&
        NodeOk(p.children[i + 1])
    {
      hide Concat, Contents;
      SharedFacts(p, i, k);
      SharedContent(p, i, k);
      SharedKin(p, i, k);
      var a, b := p.children[i], p.children[i + 1];
      SameElements(a.content, b.content, old(a.content), old(b.content));
      PartsDistinct(a.children, b.children);
      PartsDistinct(a.content, b.content);
      PartsDistinct(a.data, b.data);
    }

    twostate lemma SharedOther(new p: Node, new i: nat, new k: nat, new n: Node)
      requires old(Shape()) && p in old(nodes) && i + 1 < |p.children| && Shared(p, i, k)
      requires n in nodes && n != p && n != p.children[i] && n != p.children[i + 1]
      ensures root in nodes && NodeOk(n)
    {
      hide Concat, Contents;
      var a, b := p.children[i], p.children[i + 1];
      assert old(NodeOk(p)) && old(NodeOk(p.children[i])) && old(NodeOk(p.children[i + 1])) && old(NodeOk(n));
      SameElements(a.children, b.children, old(a.children), old(b.children));
      SameElements(a.data, b.data, old(a.data), old(b.data));
      NodeKept(n);
    }

    twostate lemma SharedRest(new p: Node, new i: nat, new k: nat)
      requires old(Shape()) && p in old(nodes) && i + 1 < |p.children| && Shared(p, i, k)
      ensures root in nodes && root.content == old(root.content)
      ensures forall d :: d in lines ==> d in root.content && d.parent in nodes && d in d.parent.data
    {
      hide Concat, Contents;
      var a, b := p.children[i], p.children[i + 1];
      assert old(NodeOk(p)) && old(NodeOk(p.children[i])) && old(NodeOk(p.children[i + 1]));
      assert old(NodeOk(root)) && old(a.parent) == old(b.parent) == p;
      SameElements(a.data, b.data, old(a.data), old(b.data));
      forall d | d in lines ensures d in root.content && d.parent in nodes && d in d.parent.data {
        assert old(d.parent) in nodes;
      }
    }

    twostate lemma SharedShape(new p: Node, new i: nat, new k: nat)
      requires old(Shape()) && p in old(nodes) && i + 1 < |p.children| && Shared(p, i, k)
      requires var a, b := p.children[i], p.children[i + 1];
        Distinct(a.children + b.children) && Distinct(old(a.content + b.content)) && Distinct(a.data + b.data)
      ensures Shape() && root.content == old(root.content)
      ensures p.children[i].content + p.children[i + 1].content ==
        old(p.children[i].content + p.children[i + 1].content)
    {
      hide Shape, NodeOk, Shared, Distinct;
      SharedContent(p, i, k);
      SharedParent(p, i, k);
      SharedNeighbours(p, i, k);
      SharedRest(p, i, k);
      forall n | n in nodes ensures NodeOk(n) {
        if n != p && n != p.children[i] && n != p.children[i + 1] {
          SharedOther(p, i, k, n);
        }
      }
      ShapeHolds();
    }

    twostate lemma SharedSums(new a: Node, new b: Node, first: seq<Line>)
      requires old(Sums()) && nodes == old(nodes) && lines == old(lines) && a in nodes && b in nodes
      requires a.content + b.content == old(a.content + b.content) && a.content == first
      requires (forall d :: d in first ==> d in lines) && a.nMarks == old(Total(first)) &&
        a.nMarks + b.nMarks == old(a.nMarks + b.nMarks)
      requires forall n {:trigger n.nMarks} :: n in nodes && n != a && n != b ==>
        n.nMarks == old(n.nMarks) && n.content == old(n.content)
      requires forall d {:trigger d.nMarks} :: d in lines ==> d.nMarks == old(d.nMarks)
      ensures Sums()
    {
      hide Total;
      SameElements(a.content, b.content, old(a.content), old(b.content));
      TotalKept(first);
      TotalKept(old(a.content));
      TotalKept(old(b.content));
      TotalJoin(a.content, b.content);
      TotalJoin(old(a.content), old(b.content));
      forall n | n in nodes ensures (forall d :: d in n.content ==> d in lines) && n.nMarks == Total(n.content) {
        if n != a && n != b {
          assert n.nMarks == old(n.nMarks);
          TotalKept(n.content);
        }
      }
    }

    method HandOutLines(a: Node, b: Node, k: nat)
      requires a != b && k <= |a.data + b.data| && Distinct(a.data + b.data)
      modifies a`data, b`data, a.data`parent, b.data`parent
      ensures a.data == old(a.data + b.data)[..k] && b.data == old(a.data + b.data)[k..]
      ensures forall d :: d in a.data ==> d.parent == a
      ensures forall d :: d in b.data ==> d.parent == b
    {
      var all := a.data + b.data;
      PartsDistinct(all[..k], all[k..]);
      a.data := all[..k];
      b.data := all[k..];
      forall d | d in a.data { d.parent := a; }
      forall d | d in b.data { d.parent := b; }
      assert all == a.data + b.data;
    }

    method HandOutNodes(a: Node, b: Node, k: nat)
      requires a != b && k <= |a.children + b.children| && Distinct(a.children + b.children)
      modifies a`children, b`children, a.children`parent, b.children`parent
      ensures a.children == old(a.children + b.children)[..k] && b.children == old(a.children + b.children)[k..]
      ensures forall c :: c in a.children ==> c.parent == a
      ensures forall c :: c in b.children ==> c.parent == b
    {
      var all := a.children + b.children;
      PartsDistinct(all[..k], all[k..]);
      a.children := all[..k];
      b.children := all[k..];
      forall c | c in a.children { c.parent := a; }
      forall c | c in b.children { c.parent := b; }
      assert all == a.children + b.children;
    }

    /** Gives the first k of the children of two neighbours to the left one and the others to the right one. */
    method HandOut(a: Node, b: Node, k: nat)
      requires a != b && a.isBottom == b.isBottom && k <= Arity(a) + Arity(b)
      requires forall c :: c in a.children + b.children ==> c != a && c != b
      requires Distinct(a.children + b.children) && Distinct(a.data + b.data)
      requires (a.isBottom ==> a.children == b.children == []) && (!a.isBottom ==> a.data == b.data == [])
      modifies a`children, a`data, a`content, b`children, b`data, b`content
      modifies a.children`parent, b.children`parent, a.data`parent, b.data`parent
      ensures a.children + b.children == old(a.children + b.children) && a.data + b.data == old(a.data + b.data) &&
        Arity(a) == k
      ensures forall c :: c in a.children ==> c.parent == a
      ensures forall c :: c in b.children ==> c.parent == b
      ensures forall c :: c in old(a.children) || c in old(b.children) ==> c in a.children || c in b.children
      ensures forall d :: d in a.data ==> d.parent == a
      ensures forall d :: d in b.data ==> d.parent == b
      ensures forall d :: d in old(a.data) || d in old(b.data) ==> d in a.data || d in b.data
      ensures a.content == Below(a) && b.content == Below(b)
      ensures a.content == old(FirstLines(a, b, k)) && a.content + b.content == old(Below(a) + Below(b))
    {
      hide Concat, Contents, Distinct;
      BelowBoth(a, b);
      if a.isBottom {
        HandOutLines(a, b, k);
      } else {
        HandOutNodes(a, b, k);
      }
      HalvesJoin(old(a.children + b.children), k);
      HalvesJoin(old(a.data + b.data), k);
      SameElements(a.children, b.children, old(a.children), old(b.children));
      SameElements(a.data, b.data, old(a.data), old(b.data));
      BelowBoth(a, b);
      SetContent(a, b);
    }

    ghost method SetContent(a: Node, b: Node)
      requires a != b && a !in a.children && a !in b.children && b !in a.children && b !in b.children
      modifies a`content, b`content
      ensures a.content == Below(a) == old(Below(a)) && b.content == Below(b) == old(Below(b))
    {
      hide Concat, Contents;
      a.content, b.content := Below(a), Below(b);
      assert a.isBottom || Contents(a.children) == old(Contents(a.children));
      assert b.isBottom || Contents(b.children) == old(Contents(b.children));
    }

    method MoveCounts(a: Node, b: Node, count: int, marks: int)
      requires a != b
      modifies a`count, a`nMarks, b`count, b`nMarks
      ensures a.count == old(a.count) + count && b.count == old(b.count) - count
      ensures a.nMarks == old(a.nMarks) + marks && b.nMarks == old(b.nMarks) - marks
    {
      a.count, b.count := a.count + count, b.count - count;
      a.nMarks, b.nMarks := a.nMarks + marks, b.nMarks - marks;
    }

    method Share(p: Node, i: nat, k: nat, count: int, marks: int)
      requires p in nodes && i + 1 < |p.children| && Neighbours(p, i) &&
        k <= Arity(p.children[i]) + Arity(p.children[i + 1])
      requires count == |FirstLines(p.children[i], p.children[i + 1], k)| - p.children[i].count
      requires marks == Total(FirstLines(p.children[i], p.children[i + 1], k)) - p.children[i].nMarks
      modifies nodes`children, nodes`data, nodes`content, nodes`count, nodes`nMarks, nodes`parent, lines`parent
      ensures i + 1 < |p.children| && p.children == old(p.children) && p.children[i] in old(nodes) &&
        p.children[i + 1] in old(nodes) && Shared(p, i, k)
      ensures var a, b := p.children[i], p.children[i + 1];
        && a.content == old(FirstLines(a, b, k)) && a.nMarks == old(Total(FirstLines(a, b, k)))
        && a.nMarks + b.nMarks == old(a.nMarks + b.nMarks)
      ensures forall n :: n in nodes && n != p.children[i] && n != p.children[i + 1] ==>
        n.nMarks == old(n.nMarks) && n.content == old(n.content)
    {
      hide Concat, Contents, Total, Distinct, FirstLines, Shared;
      var a, b := p.children[i], p.children[i + 1];
      HandOut(a, b, k);
      MoveCounts(a, b, count, marks);
      SharedHolds(p, i, k);
    }

    twostate lemma SharedHolds(new p: Node, new i: nat, new k: nat)
      requires p in old(nodes) && nodes == old(nodes) && root == old(root) && lines == old(lines)
      requires p.children == old(p.children) && i + 1 < |p.children| && p.children[i] in nodes &&
        p.children[i + 1] in nodes
      requires var a, b := p.children[i], p.children[i + 1];
        && a.children + b.children == old(a.children + b.children) && a.data + b.data == old(a.data + b.data) &&
          Arity(a) == k
        && a.content == Below(a) && b.content == Below(b) && a.count == |a.content| && b.count == |b.content|
        && (forall c :: c in a.children ==> c.parent == a) && (forall c :: c in b.children ==> c.parent == b)
        && (forall c :: c in old(a.children) || c in old(b.children) ==> c in a.children || c in b.children)
        && (forall d :: d in a.data ==> d.parent == a) && (forall d :: d in b.data ==> d.parent == b)
        && (forall d :: d in old(a.data) || d in old(b.data) ==> d in a.data || d in b.data)
        && (forall n :: n in nodes && n !in old(a.children) && n !in old(b.children) ==> n.parent == old(n.parent))
        && (forall d :: d in lines && d !in old(a.data) && d !in old(b.data) ==> d.parent == old(d.parent))
      requires forall n :: n in nodes ==> n.height == old(n.height) && n.isBottom == old(n.isBottom)
      requires forall n :: n in nodes && n != p.children[i] && n != p.children[i + 1] ==>
        n.children == old(n.children) && n.data == old(n.data) && n.content == old(n.content) && n.count == old(n.count)
      ensures Shared(p, i, k)
    {
      hide Concat, Contents;
    }

    /** The arities of all nodes but the neighbours have stayed. */
    twostate lemma SharedArity(new p: Node, new i: nat, new k: nat)
      requires p in old(nodes) && i + 1 < |p.children| && p.children[i] in old(nodes) &&
        p.children[i + 1] in old(nodes) && Shared(p, i, k)
      requires old(p.children[i].isBottom == p.children[i + 1].isBottom)
      ensures p.children == old(p.children)
      ensures Arity(p.children[i]) == k &&
        Arity(p.children[i + 1]) == old(Arity(p.children[i]) + Arity(p.children[i + 1])) - k
      ensures forall n {:trigger Arity(n)} :: n in nodes && n != p.children[i] && n != p.children[i + 1] ==>
        Arity(n) == old(Arity(n))
    {
      var a, b := p.children[i], p.children[i + 1];
      assert |a.children + b.children| == |a.children| + |b.children| && |a.data + b.data| == |a.data| + |b.data|;
    }

    /** Children i and i + 1 of p share their children out anew: the left one gets the first k of them. */
    method Divide(p: Node, i: nat, k: nat, count: int, marks: int)
      requires Shape() && Sums() && p in nodes && i + 1 < |p.children|
      requires p.children[i] in nodes && p.children[i + 1] in nodes &&
        p.children[i].isBottom == p.children[i + 1].isBottom
      requires k <= Arity(p.children[i]) + Arity(p.children[i + 1])
      requires count == |FirstLines(p.children[i], p.children[i + 1], k)| - p.children[i].count
      requires marks == Total(FirstLines(p.children[i], p.children[i + 1], k)) - p.children[i].nMarks
      modifies nodes`children, nodes`data, nodes`content, nodes`count, nodes`nMarks, nodes`parent, lines`parent
      ensures Shape() && Sums() && root.content == old(root.content) && p.children == old(p.children)
      ensures Arity(p.children[i]) == k &&
        Arity(p.children[i + 1]) == old(Arity(p.children[i]) + Arity(p.children[i + 1])) - k
      ensures forall n {:trigger Arity(n)} :: n in nodes && n != p.children[i] && n != p.children[i + 1] ==>
        Arity(n) == old(Arity(n))
      ensures p.children[i].parent == p.children[i + 1].parent == p && p.parent == old(p.parent)
      ensures k == 0 ==> p.children[i].data == [] && p.children[i].children == []
      ensures Arity(p.children[i + 1]) == 0 ==> p.children[i + 1].data == [] && p.children[i + 1].children == []
    {
      hide Shape, NodeOk, Concat, Contents, Total, Sums, Distinct, Below, FirstLines, Shared, Neighbours;
      NeighbourFacts(p, i);
      Share(p, i, k, count, marks);
      SharedDistinct(p, i, k);
      SharedShape(p, i, k);
      SharedArity(p, i, k);
      SharedKin(p, i, k);
      ChildLines(p, i);
      SharedSums(p.children[i], p.children[i + 1], p.children[i].content);
    }

    ghost predicate Neighbours(p: Node, i: nat)
      requires p in nodes && i + 1 < |p.children|
      reads this, nodes
    {
      var a, b := p.children[i], p.children[i + 1];
      && a in nodes && b in nodes && a != b && p != a && p != b && a.height == b.height && a.isBottom == b.isBottom
      && (forall c :: c in a.children + b.children ==> c in nodes && c != a && c != b && c != p)
      && (forall d :: d in a.data + b.data ==> d in lines)
      && (a.isBottom ==> a.children == b.children == []) && (!a.isBottom ==> a.data == b.data == [])
      && a.content == Below(a) && b.content == Below(b) && a.count == |a.content| && b.count == |b.content|
      && Distinct(a.children + b.children) && Distinct(a.content + b.content) && Distinct(a.data + b.data)
    }

    lemma ChildLines(p: Node, i: nat)
      requires Shape() && p in nodes && i < |p.children|
      ensures p.children[i] in nodes && forall d :: d in p.children[i].content ==> d in lines
    {
      assert NodeOk(p) && NodeOk(p.children[i]);
    }

    twostate lemma SharedDistinct(new p: Node, new i: nat, new k: nat)
      requires p in old(nodes) && i + 1 < |p.children| && Shared(p, i, k) && old(Neighbours(p, i))
      ensures var a, b := p.children[i], p.children[i + 1];
        Distinct(a.children + b.children) && Distinct(old(a.content + b.content)) && Distinct(a.data + b.data)
    {
      hide Distinct;
    }

    lemma NeighbourFacts(p: Node, i: nat)
      requires Shape() && p in nodes && i + 1 < |p.children|
      ensures Neighbours(p, i)
    {
      NeighboursApart(p, i);
      assert NodeOk(p);
      assert NodeOk(p.children[i]) && NodeOk(p.children[i + 1]);
    }

    /** Nothing has changed but that child i of p, which had nothing below it, is gone. */
    twostate predicate WithoutSibling(new p: Node, new i: nat)
      requires p in old(nodes) && i < |old(p.children)|
      reads this, nodes, lines, p
    {
      var q := old(p.children[i]);
      && nodes == old(nodes) - {q} && root == old(root) && lines == old(lines) && p in nodes
      && p.children == old(p.children)[..i] + old(p.children)[i + 1..]
      && (forall n :: n in nodes ==>
        && n.parent == old(n.parent) && n.data == old(n.data) && n.content == old(n.content) &&
          n.height == old(n.height)
        && n.isBottom == old(n.isBottom) && n.count == old(n.count) && (n != p ==> n.children == old(n.children)))
      && (forall d {:trigger d.parent} :: d in lines ==> d.parent == old(d.parent))
    }

    twostate lemma RemovedContent(new p: Node, new i: nat)
      requires old(Shape()) && p in old(nodes) && i < |old(p.children)| && WithoutSibling(p, i)
      requires old(p.children[i].children == [] && p.children[i].data == [])
      ensures Concat(Contents(p.children)) == old(Concat(Contents(p.children)))
    {
      hide Contents;
      assert old(NodeOk(p)) && old(NodeOk(p.children[i]));
      ConcatInserted(Contents(p.children), old(Contents(p.children)), i);
    }

    twostate lemma RemovedParent(new p: Node, new i: nat)
      requires old(Shape()) && p in old(nodes) && i < |old(p.children)| && WithoutSibling(p, i)
      requires old(p.children[i].children == [] && p.children[i].data == [])
      ensures root in nodes && NodeOk(p)
      ensures forall e :: e in p.children <==> e in old(p.children) && e != old(p.children[i])
    {
      hide Concat, Contents;
      assert old(NodeOk(p)) && old(NodeOk(p.children[i]));
      RemovedContent(p, i);
      RemovedAt(old(p.children), i);
    }

    twostate lemma RemovedOther(new p: Node, new i: nat, new n: Node)
      requires old(Shape()) && p in old(nodes) && i < |old(p.children)| && WithoutSibling(p, i) && n in nodes && n != p
      requires old(p.children[i].children == [] && p.children[i].data == [])
      ensures root in nodes && NodeOk(n)
    {
      hide Concat, Contents;
      assert old(NodeOk(p)) && old(NodeOk(p.children[i])) && old(NodeOk(n));
      RemovedParent(p, i);
      NodeKept(n);
    }

    twostate lemma RemovedRest(new p: Node, new i: nat)
      requires old(Shape()) && p in old(nodes) && i < |old(p.children)| && WithoutSibling(p, i)
      requires old(p.children[i].children == [] && p.children[i].data == [])
      ensures root in nodes && root.content == old(root.content)
      ensures forall d :: d in lines ==> d in root.content && d.parent in nodes && d in d.parent.data
    {
      hide Concat, Contents;
      assert old(NodeOk(p)) && old(NodeOk(p.children[i])) && old(NodeOk(root));
      forall d | d in lines ensures d in root.content && d.parent in nodes && d in d.parent.data {
        assert d.parent == old(d.parent);
      }
    }

    twostate lemma SumsKept()
      requires old(Sums()) && nodes <= old(nodes) && lines == old(lines)
      requires forall n {:trigger n.nMarks} :: n in nodes ==> n.nMarks == old(n.nMarks) && n.content == old(n.content)
      requires forall d {:trigger d.nMarks} :: d in lines ==> d.nMarks == old(d.nMarks)
      ensures Sums()
    {
      forall n | n in nodes ensures (forall d :: d in n.content ==> d in lines) && n.nMarks == Total(n.content) {
        assert old(n.nMarks) == n.nMarks;
        TotalKept(n.content);
      }
    }

    /** Drops child i of p, which has nothing below it. */
    method RemoveSibling(p: Node, i: nat)
      requires Shape() && Sums() && p in nodes && i < |p.children|
      requires p.children[i].children == [] && p.children[i].data == []
      modifies this`nodes, p`children
      ensures Shape() && Sums() && nodes == old(nodes) - {old(p.children)[i]} && p in nodes &&
        root.content == old(root.content)
      ensures p.children == old(p.children)[..i] + old(p.children)[i + 1..]
    {
      hide Shape, Sums, NodeOk;
      ChildFacts(p, i);
      nodes := nodes - {p.children[i]};
      p.children := p.children[..i] + p.children[i + 1..];
      RemovedShape(p, i);
      SumsKept();
    }

    twostate lemma RemovedShape(new p: Node, new i: nat)
      requires old(Shape()) && p in old(nodes) && i < |old(p.children)| && WithoutSibling(p, i)
      requires old(p.children[i].children == [] && p.children[i].data == [])
      ensures Shape() && root.content == old(root.content)
    {
      hide Shape, NodeOk, WithoutSibling;
      RemovedRest(p, i);
      RemovedParent(p, i);
      forall n | n in nodes ensures NodeOk(n) {
        if n != p {
          RemovedOther(p, i, n);
        }
      }
      ShapeHolds();
    }

    // ----- the root

    /** A new root above the root. */
    method GrowRoot()
      requires Shape() && Sums() && FullBut(root)
      modifies this`root, this`nodes, root`parent
      ensures Shape() && Sums() && FullBut(old(root)) && fresh(root) && nodes == old(nodes) + {root} &&
        root.children == [old(root)] && !root.isBottom
      ensures root.content == old(root.content) && old(root).parent == root
    {
      hide Shape, Sums, NodeOk;
      RootIn();
      NodeCount(root);
      SumOf(root);
      var top := new Node(false);
      top.count, top.nMarks := root.count, root.nMarks;
      top.children := [root];
      top.height, top.content := root.height + 1, root.content;
      root.parent := top;
      root := top;
      nodes := nodes + {top};
      GrownShape();
      GrownSums();
    }

    twostate predicate Grown()
      reads this, nodes, lines, root
    {
      && old(root in nodes) && root !in old(nodes) && nodes == old(nodes) + {root} && lines == old(lines)
      && root.children == [old(root)] && root.parent == null && root.data == [] && !root.isBottom
      && root.content == old(root.content) && root.count == old(root.count) && root.height == old(root.height) + 1
      && (forall n :: n in old(nodes) ==>
        && n.parent == (if n == old(root) then root else old(n.parent))
        && n.children == old(n.children) && n.data == old(n.data) && n.content == old(n.content) &&
          n.height == old(n.height)
        && n.isBottom == old(n.isBottom) && n.count == old(n.count))
      && (forall d {:trigger d.parent} :: d in lines ==> d.parent == old(d.parent))
    }

    twostate lemma GrownRoot()
      requires old(Shape()) && Grown()
      ensures root in nodes && NodeOk(root)
    {
      assert old(NodeOk(root));
      assert Contents([old(root)]) == [old(root).content];
      assert Concat([old(root).content]) == old(root).content;
    }

    twostate lemma GrownOther(new n: Node)
      requires old(Shape()) && Grown() && n in nodes && n != root
      ensures root in nodes && NodeOk(n)
    {
      hide Concat, Contents;
      assert old(NodeOk(root)) && old(NodeOk(n));
      NodeKept(n);
    }

    twostate lemma GrownShape()
      requires old(Shape()) && Grown()
      ensures Shape()
    {
      hide NodeOk;
      GrownRoot();
      forall d | d in lines ensures d in root.content && d.parent in nodes && d in d.parent.data {
        assert d.parent == old(d.parent);
      }
      forall n | n in nodes ensures NodeOk(n) {
        if n != root {
          GrownOther(n);
        }
      }
      ShapeHolds();
    }

    twostate lemma GrownSums()
      requires old(Shape()) && old(Sums()) && Grown() && root.nMarks == old(root.nMarks)
      requires forall n {:trigger n.nMarks} :: n in old(nodes) ==> n.nMarks == old(n.nMarks)
      requires forall d {:trigger d.nMarks} :: d in lines ==> d.nMarks == old(d.nMarks)
      ensures Sums()
    {
      forall n | n in nodes ensures (forall d :: d in n.content ==> d in lines) && n.nMarks == Total(n.content) {
        var m := if n == root then old(root) else n;
        assert old(m.nMarks) == m.nMarks && old(m.content) == n.content;
        TotalKept(old(m.content));
      }
    }

    /** The root's only child takes its place. */
    method DropRoot(c: Node)
      requires Shape() && Sums() && root.children == [c] && (FullBut(root) || FullBut(c))
      modifies this`root, this`nodes, c`parent
      ensures Shape() && Sums() && FullBut(c) && root == c && nodes == old(nodes) - {old(root)}
      ensures root.content == old(root.content)
    {
      hide Shape, Sums, NodeOk;
      RootIn();
      ChildFacts(root, 0);
      nodes := nodes - {root};
      root := c;
      c.parent := null;
      DroppedShape();
      SumsKept();
    }

    twostate predicate Dropped()
      reads this, nodes, lines, root
    {
      && old(root in nodes) && |old(root.children)| == 1 && root == old(root.children)[0] && root in old(nodes)
      && nodes == old(nodes) - {old(root)} && lines == old(lines) && old(root) != root
      && (forall n :: n in nodes ==>
        && n.parent == (if n == root then null else old(n.parent))
        && n.children == old(n.children) && n.data == old(n.data) && n.content == old(n.content) &&
          n.height == old(n.height)
        && n.isBottom == old(n.isBottom) && n.count == old(n.count))
      && (forall d {:trigger d.parent} :: d in lines ==> d.parent == old(d.parent))
    }

    twostate lemma DroppedNode(new n: Node)
      requires old(Shape()) && Dropped() && n in nodes
      ensures root in nodes && NodeOk(n)
    {
      hide Concat, Contents;
      assert old(NodeOk(root)) && old(NodeOk(n)) && old(NodeOk(root.children[0]));
      if n != root {
        assert old(NodeOk(n.parent));
      }
      NodeKept(n);
    }

    twostate lemma DroppedContent()
      requires old(Shape()) && Dropped()
      ensures root.content == old(root.content)
      ensures forall d :: d in lines ==> d in root.content && d.parent in nodes && d in d.parent.data
    {
      assert old(NodeOk(root));
      var c := old(root.children)[0];
      assert old(Contents(root.children)) == [old(c.content)];
      assert Concat([old(c.content)]) == old(c.content);
      forall d | d in lines ensures d in root.content && d.parent in nodes && d in d.parent.data {
        assert d.parent == old(d.parent);
      }
    }

    twostate lemma DroppedShape()
      requires old(Shape()) && Dropped()
      ensures Shape() && root.content == old(root.content)
    {
      hide NodeOk;
      DroppedContent();
      forall n | n in nodes ensures NodeOk(n) {
        DroppedNode(n);
      }
      ShapeHolds();
    }

    // ----- keeping the nodes between half full and full

    /** What child k of two neighbours, counted through, has below it. */
    ghost function KidLines(a: Node, b: Node, k: nat): seq<Line>
      requires k < Arity(a) + Arity(b) && a.isBottom == b.isBottom
      reads a`isBottom, a`data, a`children, b`isBottom, b`data, b`children, a.children`content, b.children`content
    {
      if a.isBottom then [(a.data + b.data)[k]] else (a.children + b.children)[k].content
    }

    lemma FirstLinesNext(a: Node, b: Node, k: nat)
      requires k < Arity(a) + Arity(b) && a.isBottom == b.isBottom
      ensures FirstLines(a, b, k + 1) == FirstLines(a, b, k) + KidLines(a, b, k)
    {
      hide Concat;
      if a.isBottom {
        assert (a.data + b.data)[..k + 1] == (a.data + b.data)[..k] + [(a.data + b.data)[k]];
      } else {
        var all := a.children + b.children;
        var ss := Contents(all);
        ConcatPiece(ss, k);
        assert Contents(all[..k + 1]) == ss[..k + 1];
        assert Contents(all[..k]) == ss[..k];
      }
    }

    lemma FirstLinesAll(a: Node, b: Node)
      requires a.isBottom == b.isBottom
      ensures FirstLines(a, b, Arity(a)) == Below(a)
      ensures FirstLines(a, b, Arity(a) + Arity(b)) == Below(a) + Below(b)
    {
      hide Concat;
      BelowBoth(a, b);
      if a.isBottom {
        assert (a.data + b.data)[..|a.data|] == a.data;
        assert (a.data + b.data)[..|a.data| + |b.data|] == a.data + b.data;
      } else {
        assert (a.children + b.children)[..|a.children|] == a.children;
        assert (a.children + b.children)[..|a.children| + |b.children|] == a.children + b.children;
      }
    }

    /** What a child of one of two neighbours counts. */
    lemma KidCounts(p: Node, i: nat, k: nat)
      requires Shape() && Sums() && p in nodes && i + 1 < |p.children|
      requires var a, b := p.children[i], p.children[i + 1]; a.isBottom == b.isBottom && k < Arity(a) + Arity(b)
      ensures var a, b := p.children[i], p.children[i + 1];
        if a.isBottom then
          |KidLines(a, b, k)| == 1 && Total(KidLines(a, b, k)) == (a.data + b.data)[k].nMarks
        else
          |KidLines(a, b, k)| == (a.children + b.children)[k].count &&
            Total(KidLines(a, b, k)) == (a.children + b.children)[k].nMarks
    {
      hide Concat, Contents;
      NeighbourFacts(p, i);
      var a, b := p.children[i], p.children[i + 1];
      if a.isBottom {
        var d := (a.data + b.data)[k];
        assert Weights([d]) == [d.nMarks] && Sum([d.nMarks]) == d.nMarks;
      } else {
        var c := (a.children + b.children)[k];
        assert c in a.children + b.children;
        assert NodeOk(c);
      }
    }

    method NodeIndex(p: Node, c: Node) returns (i: nat)
      requires c in p.children
      ensures i < |p.children| && p.children[i] == c
    {
      i := 0;
      while p.children[i] != c
        invariant i < |p.children| && c !in p.children[..i]
        decreases |p.children| - i
      {
        i := i + 1;
      }
    }

    /** What the children of a node from one on count together. */
    method TailCounts(node: Node, from: nat) returns (count: int, marks: int)
      requires Shape() && Sums() && node in nodes && from <= Arity(node)
      ensures count == |node.content| - |Head(node, from)| && marks == node.nMarks - Total(Head(node, from))
    {
      hide Shape, Sums, NodeOk, Head, Total;
      count, marks := 0, 0;
      var i := from;
      while i < Arity(node)
        invariant from <= i <= Arity(node)
        invariant count == |Head(node, i)| - |Head(node, from)| &&
          marks == Total(Head(node, i)) - Total(Head(node, from))
      {
        HeadNext(node, i);
        if node.isBottom {
          count, marks := count + 1, marks + node.data[i].nMarks;
        } else {
          count, marks := count + node.children[i].count, marks + node.children[i].nMarks;
        }
        i := i + 1;
      }
      HeadAll(node);
      SumOf(node);
    }

    /** What the first k children of a node have below them. */
    ghost function Head(n: Node, k: nat): seq<Line>
      requires k <= Arity(n)
      reads n`isBottom, n`data, n`children, n.children`content
    {
      if n.isBottom then n.data[..k] else Concat(Contents(n.children[..k]))
    }

    lemma HeadAll(n: Node)
      requires Shape() && n in nodes
      ensures Head(n, Arity(n)) == n.content
    {
      assert NodeOk(n);
      assert n.data[..|n.data|] == n.data && n.children[..|n.children|] == n.children;
    }

    lemma HeadNext(n: Node, k: nat)
      requires Shape() && Sums() && n in nodes && k < Arity(n)
      ensures if n.isBottom then
          |Head(n, k + 1)| == |Head(n, k)| + 1 && Total(Head(n, k + 1)) == Total(Head(n, k)) + n.data[k].nMarks
        else
          |Head(n, k + 1)| == |Head(n, k)| + n.children[k].count &&
            Total(Head(n, k + 1)) == Total(Head(n, k)) + n.children[k].nMarks
    {
      hide Concat;
      assert NodeOk(n);
      if n.isBottom {
        var d := n.data[k];
        assert n.data[..k + 1] == n.data[..k] + [d];
        TotalJoin(n.data[..k], [d]);
        assert Weights([d]) == [d.nMarks] && Sum([d.nMarks]) == d.nMarks;
      } else {
        var c := n.children[k];
        assert NodeOk(c);
        var ss := Contents(n.children);
        ConcatPiece(ss, k);
        assert Contents(n.children[..k + 1]) == ss[..k + 1];
        assert Contents(n.children[..k]) == ss[..k];
        TotalJoin(Concat(ss[..k]), c.content);
      }
    }

    lemma HeadFirst(a: Node, b: Node, k: nat)
      requires b.data == [] && b.children == [] && a.isBottom == b.isBottom && k <= Arity(a)
      ensures FirstLines(a, b, k) == Head(a, k)
    {
      assert a.data + [] == a.data && a.children + [] == a.children;
    }

    /** Cuts a full node in two halves, neighbours under the same parent. */
    method SplitNode(node: Node)
      requires Shape() && Sums() && FullBut(node) && node in nodes && Arity(node) == MAX_CAPACITY && node.parent != null
      modifies this`nodes, nodes`children, nodes`data, nodes`content, nodes`count, nodes`nMarks, nodes`parent,
        lines`parent
      ensures Shape() && Sums() && FullBut(old(node.parent)) && fresh(nodes - old(nodes)) && old(nodes) <= nodes
      ensures node.parent == old(node.parent) && node.parent in nodes &&
        Arity(node.parent) == old(Arity(node.parent)) + 1
      ensures root.content == old(root.content)
    {
      hide Shape, Sums, NodeOk, Head, FirstLines, Total, Concat, Contents, Shared, FullBut;
      var p: Node := node.parent;
      ParentFacts(node);
      var i := NodeIndex(p, node);
      var half := AddSibling(p, i);
      var count, marks := TailCounts(node, MIN_CAPACITY);
      NeighbourFacts(p, i);
      HeadFirst(node, half, MIN_CAPACITY);
      Divide(p, i, MIN_CAPACITY, -count, -marks);
      StillFull(node, p, node, half);
    }

    /** No node but p has become too small or too big. */
    twostate lemma StillFull(at: Node, new p: Node, new a: Node, new b: Node)
      requires old(FullBut(at)) && (at == a || at == b) && root == old(root) && nodes - {b} <= old(nodes)
      requires forall n {:trigger Arity(n)} :: n in nodes - {b} && n != p && n != a ==> Arity(n) == old(Arity(n))
      requires MIN_CAPACITY <= Arity(a) < MAX_CAPACITY && (b in nodes ==> MIN_CAPACITY <= Arity(b) < MAX_CAPACITY)
      ensures FullBut(p)
    {
    }

    /** Halves full nodes from `node` up. */
    method SplitUp(start: Node)
      requires Shape() && Sums() && FullBut(start) && start in nodes && start.isBottom
      requires 1 <= Arity(start) <= MAX_CAPACITY && (start != root ==> MIN_CAPACITY <= Arity(start))
      modifies this`root, this`nodes, nodes`children, nodes`data, nodes`content, nodes`count, nodes`nMarks,
        nodes`parent, lines`parent
      ensures Shape() && Sums() && Full() && root.content == old(root.content) && fresh(nodes - old(nodes))
    {
      hide Shape, Sums, FullBut;
      var node := start;
      while Arity(node) == MAX_CAPACITY
        invariant Shape() && Sums() && FullBut(node) && node in nodes && root.content == old(root.content)
        invariant fresh(nodes - old(nodes))
        invariant 1 <= Arity(node) <= MAX_CAPACITY && (node != root ==> MIN_CAPACITY <= Arity(node))
        decreases if Arity(node) == MAX_CAPACITY then 1 + root.height - node.height else 0
      {
        if node.parent == null {
          NoOtherRoot(node);
          GrowRoot();
        }
        ParentFacts(node);
        IsFull(node, node.parent);
        SplitNode(node);
        node := node.parent;
      }
      FullAgain(node);
    }

    lemma IsFull(at: Node?, n: Node)
      requires FullBut(at) && n in nodes && n != at
      ensures 1 <= Arity(n) < MAX_CAPACITY && (n != root ==> MIN_CAPACITY <= Arity(n))
    {
    }

    lemma FullAgain(node: Node)
      requires FullBut(node) && 1 <= Arity(node) < MAX_CAPACITY && (node != root ==> MIN_CAPACITY <= Arity(node))
      ensures Full()
    {
    }

    twostate lemma FullBefore(node: Node)
      requires old(Full()) && root == old(root) && nodes == old(nodes) && node in nodes
      requires forall n {:trigger Arity(n)} :: n in nodes && n != node ==> Arity(n) == old(Arity(n))
      ensures FullBut(node) && 1 <= old(Arity(node)) < MAX_CAPACITY &&
        (node != root ==> MIN_CAPACITY <= old(Arity(node)))
    {
    }

    /** A new line in a bottom node, which may be too big then. */
    method Place(index: int) returns (data: Line, node: Node)
      requires Shape() && Sums() && Full() && 0 <= index <= |root.content|
      modifies this`lines, nodes`data, nodes`content, nodes`count, nodes`nMarks
      ensures Shape() && Sums() && FullBut(node) && node in nodes && node.isBottom
      ensures 1 <= Arity(node) <= MAX_CAPACITY && (node != root ==> MIN_CAPACITY <= Arity(node))
      ensures fresh(data) && data.marks == [] && data.nMarks == 0 && lines == old(lines) + {data}
      ensures root.content == old(root.content)[..index] + [data] + old(root.content)[index..]
    {
      hide Shape, Sums, FullBut, NodeOk, Due, SamePlace, ShapeBut;
      var at;
      node, at := FindPlace(index);
      BottomData(node);
      data := PutLine(node, at);
      FullBefore(node);
      TotalOne(data);
      RecountUp(node, 1, 0, at, [], [data], null, index, if index == 0 then 0 else -1);
      ShapeAgain();
    }

    lemma TotalOne(d: Line)
      ensures Total([d]) == d.nMarks && Total([]) == 0
    {
      assert Weights([d]) == [d.nMarks] && Sum([d.nMarks]) == d.nMarks;
    }

    /** A new line with the given number. */
    method Insert(index: int) returns (data: Line)
      requires Valid() && 0 <= index <= |root.content|
      modifies this`root, this`stamp, this`nodes, this`lines
      modifies nodes`children, nodes`data, nodes`content, nodes`count, nodes`nMarks, nodes`parent, lines`parent
      ensures Valid() && fresh(data) && data.marks == [] && marks == old(marks) && lines == old(lines) + {data} &&
        fresh(nodes - old(nodes))
      ensures root.content == old(root.content)[..index] + [data] + old(root.content)[index..]
    {
      hide Shape, Sums, MarksOk, FullBut, NodeOk, Cached;
      stamp := stamp + 1;
      var node;
      data, node := Place(index);
      SplitUp(node);
      Inserted(data);
    }

    twostate lemma Inserted(new data: Line)
      requires old(Valid()) && Shape() && Sums() && Full() && data !in old(lines) && lines == old(lines) + {data}
      requires marks == old(marks) && old(stamp) < stamp && data.marks == [] && data.nMarks == 0
      requires forall d :: d in old(lines) ==> d.marks == old(d.marks) && d.nMarks == old(d.nMarks)
      requires forall m :: m in marks ==> m.line == old(m.line) && m.stamp == old(m.stamp)
      ensures Valid()
    {
      hide Shape, Sums, FullBut;
    }

    /** The last child of child i of p goes to child i + 1. */
    method BorrowLeft(p: Node, i: nat)
      requires Shape() && Sums() && p in nodes && i + 1 < |p.children|
      requires FullBut(p.children[i + 1]) && MIN_CAPACITY < Arity(p.children[i]) &&
        Arity(p.children[i + 1]) == MIN_CAPACITY - 1
      modifies nodes`children, nodes`data, nodes`content, nodes`count, nodes`nMarks, nodes`parent, lines`parent
      ensures Shape() && Sums() && FullBut(p) && p.children == old(p.children) && root.content == old(root.content) &&
        p.parent == old(p.parent)
    {
      hide Shape, Sums, NodeOk, FirstLines, Total, Concat, Contents, FullBut, KidLines;
      NeighbourFacts(p, i);
      var sib, node := p.children[i], p.children[i + 1];
      IsFull(node, sib);
      ghost var k := Arity(sib) - 1;
      FirstLinesNext(sib, node, k);
      FirstLinesAll(sib, node);
      KidCounts(p, i, k);
      SumOf(sib);
      TotalJoin(FirstLines(sib, node, k), KidLines(sib, node, k));
      if node.isBottom {
        Divide(p, i, Arity(sib) - 1, -1, -sib.data[|sib.data| - 1].nMarks);
      } else {
        var child := sib.children[|sib.children| - 1];
        Divide(p, i, Arity(sib) - 1, -child.count, -child.nMarks);
      }
      StillFull(node, p, sib, node);
    }

    /** The first child of child i + 1 of p goes to child i. */
    method BorrowRight(p: Node, i: nat)
      requires Shape() && Sums() && p in nodes && i + 1 < |p.children|
      requires FullBut(p.children[i]) && MIN_CAPACITY < Arity(p.children[i + 1]) &&
        Arity(p.children[i]) == MIN_CAPACITY - 1
      modifies nodes`children, nodes`data, nodes`content, nodes`count, nodes`nMarks, nodes`parent, lines`parent
      ensures Shape() && Sums() && FullBut(p) && p.children == old(p.children) && root.content == old(root.content) &&
        p.parent == old(p.parent)
    {
      hide Shape, Sums, NodeOk, FirstLines, Total, Concat, Contents, FullBut, KidLines;
      NeighbourFacts(p, i);
      var node, sib := p.children[i], p.children[i + 1];
      IsFull(node, sib);
      ghost var k := Arity(node);
      FirstLinesNext(node, sib, k);
      FirstLinesAll(node, sib);
      KidCounts(p, i, k);
      SumOf(node);
      TotalJoin(FirstLines(node, sib, k), KidLines(node, sib, k));
      if node.isBottom {
        Divide(p, i, Arity(node) + 1, 1, sib.data[0].nMarks);
      } else {
        var child := sib.children[0];
        Divide(p, i, Arity(node) + 1, child.count, child.nMarks);
      }
      StillFull(node, p, sib, node);
    }

    /** Child i of p takes over everything its right neighbour has. */
    method MergeNodes(p: Node, i: nat)
      requires Shape() && Sums() && p in nodes && i + 1 < |p.children|
      requires FullBut(p.children[i]) || FullBut(p.children[i + 1])
      requires MIN_CAPACITY <= Arity(p.children[i]) + Arity(p.children[i + 1]) < MAX_CAPACITY
      modifies this`nodes
      modifies nodes`children, nodes`data, nodes`content, nodes`count, nodes`nMarks, nodes`parent, lines`parent
      ensures Shape() && Sums() && FullBut(p) && p in nodes && Arity(p) == old(Arity(p)) - 1 && nodes <= old(nodes)
      ensures root.content == old(root.content) && p.parent == old(p.parent)
    {
      hide Shape, Sums, NodeOk, FirstLines, Total, Concat, Contents, FullBut;
      NeighbourFacts(p, i);
      ChildFacts(p, i);
      var node, next := p.children[i], p.children[i + 1];
      FirstLinesAll(node, next);
      SumOf(node);
      SumOf(next);
      TotalJoin(node.content, next.content);
      Divide(p, i, Arity(node) + Arity(next), next.count, next.nMarks);
      RemoveSibling(p, i + 1);
      if old(FullBut(p.children[i])) {
        StillFull(node, p, node, next);
      } else {
        StillFull(next, p, node, next);
      }
    }

    /** A node one child short of half full gets a child from a neighbour, or they become one node. */
    method FillUp(p: Node, node: Node)
      requires Shape() && Sums() && FullBut(node) && p in nodes && node in p.children && 2 <= |p.children|
      requires Arity(node) == MIN_CAPACITY - 1
      modifies this`nodes, nodes`children, nodes`data, nodes`content, nodes`count, nodes`nMarks, nodes`parent,
        lines`parent
      ensures Shape() && Sums() && FullBut(p) && p in nodes && nodes <= old(nodes) && root.content == old(root.content)
      ensures old(Arity(p)) - 1 <= Arity(p) <= old(Arity(p)) && p.parent == old(p.parent)
    {
      hide Shape, Sums, FullBut;
      var index := NodeIndex(p, node);
      ChildFacts(p, index);
      if index > 0 {
        NeighbourFacts(p, index - 1);
        IsFull(node, p.children[index - 1]);
        if Arity(p.children[index - 1]) > MIN_CAPACITY {
          BorrowLeft(p, index - 1);
        } else {
          MergeNodes(p, index - 1);
        }
      } else {
        NeighbourFacts(p, 0);
        IsFull(node, p.children[1]);
        if Arity(p.children[1]) > MIN_CAPACITY {
          BorrowRight(p, 0);
        } else {
          MergeNodes(p, 0);
        }
      }
    }

    /** Fills up nodes that are less than half full, from `start` up. */
    method MergeUp(start: Node)
      requires Shape() && Sums() && FullBut(start) && start in nodes && 1 <= Arity(start) < MAX_CAPACITY
      requires MIN_CAPACITY - 1 <= Arity(start) || start == root
      modifies this`root, this`nodes, nodes`children, nodes`data, nodes`content, nodes`count, nodes`nMarks,
        nodes`parent, lines`parent
      ensures Shape() && Sums() && Full() && root.content == old(root.content) && nodes <= old(nodes)
    {
      hide Shape, Sums, FullBut;
      var node := start;
      while Arity(node) < MIN_CAPACITY
        invariant Shape() && Sums() && FullBut(node) && node in nodes && nodes <= old(nodes) &&
          root.content == old(root.content)
        invariant 1 <= Arity(node) < MAX_CAPACITY && (MIN_CAPACITY - 1 <= Arity(node) || node == root)
        decreases root.height - node.height
      {
        RootIn();
        NodeHeight(node);
        if node.parent == null {
          NoOtherRoot(node);
          if Arity(node) > 1 || node.isBottom {
            break;
          }
          var child := node.children[0];
          ChildFacts(node, 0);
          IsFull(node, child);
          DropRoot(child);
          FullAgain(root);
          return;
        }
        var p: Node := node.parent;
        ParentFacts(node);
        IsFull(node, p);
        if Arity(p) == 1 {
          assert p == root && p.children[0] == node;
          DropRoot(node);
          FullAgain(root);
          return;
        }
        FillUp(p, node);
        node := p;
      }
      FullAgain(node);
    }

    lemma NodeHeight(n: Node)
      requires Shape() && n in nodes
      ensures n.height <= root.height && (!n.isBottom ==> n.data == []) && (n.isBottom ==> n.children == [])
    {
      assert NodeOk(n);
    }

    // ----- deleting lines

    /** Takes a line out of its bottom node. */
    method TakeLine(node: Node, d: Line) returns (ghost at: nat)
      requires Shape() && Full() && node in nodes && d in node.data && node.isBottom
      modifies node`data
      ensures at < |node.content| && node.content[at] == d && Due(node, at, [d], [], d)
      ensures |node.data| == |old(node.data)| - 1 && FullBut(node)
    {
      hide NodeOk, ShapeBut, Shape, FullBut;
      BottomData(node);
      KnownLines();
      var i := 0;
      while node.data[i] != d
        invariant 0 <= i < |node.data| && d !in node.data[..i]
        decreases |node.data| - i
      {
        i := i + 1;
      }
      at := i;
      node.data := node.data[..i] + node.data[i + 1..];
      TakeLineShape(node, d, i);
      FullBefore(node);
    }

    twostate lemma TakeLineShape(new node: Node, new d: Line, new at: nat)
      requires old(Shape()) && node in old(nodes) && node.isBottom && at < |node.content| &&
        old(node.data) == node.content
      requires root == old(root) && nodes == old(nodes) && lines == old(lines) && node.content[at] == d
      requires node.data == Splice(node.content, at, 1, [])
      requires forall e :: e in lines ==> e.parent == old(e.parent)
      requires forall n :: n in nodes ==>
        && n.parent == old(n.parent) && n.children == old(n.children) && n.height == old(n.height)
        && n.isBottom == old(n.isBottom) && n.content == old(n.content) && n.count == old(n.count)
        && (n != node ==> n.data == old(n.data))
      ensures ShapeBut(node, Splice(node.content, at, 1, []), d)
    {
      hide ShapeBut;
      assert old(NodeOk(node));
      forall n | n in nodes && n != node ensures NodeOk(n) {
        assert old(NodeOk(n));
        NodeKept(n);
      }
      RemovedAt(node.content, at);
      ShapeButHolds(node, Splice(node.content, at, 1, []), d);
    }

    /** A line that is in no node any more leaves the buffer. */
    lemma NowhereElse(d: Line)
      requires ShapeBut(null, [], d) && Sums() && d !in root.content
      ensures forall n :: n in nodes ==> d !in n.content
    {
      forall n | n in nodes ensures d !in n.content {
        if d in n.content {
          Reaches(n, d, d);
        }
      }
    }

    /** The line leaves the set of lines of the buffer. */
    ghost method LoseLine(d: Line)
      requires ShapeBut(null, [], d) && Sums() && forall n :: n in nodes ==> d !in n.content
      modifies this`lines
      ensures Shape() && Sums() && lines == old(lines) - {d}
    {
      hide ShapeBut, Shape, NodeOk;
      LoseFacts(d);
      forall n | n in nodes ensures (forall e :: e in n.content ==> e in lines) && n.nMarks == Total(n.content) {
        SumOf(n);
      }
      lines := lines - {d};
      forall n | n in nodes ensures NodeOk(n) {
        LoseNode(d, n);
      }
      forall n | n in nodes ensures (forall e :: e in n.content ==> e in lines) && n.nMarks == Total(n.content) {
        assert n.nMarks == old(n.nMarks) && n.content == old(n.content);
      }
      ShapeButHolds(null, [], null);
      ShapeAgain();
    }

    lemma LoseFacts(d: Line)
      requires ShapeBut(null, [], d)
      ensures root in nodes && (forall n {:trigger NodeOk(n)} :: n in nodes ==> NodeOk(n))
      ensures forall e {:trigger e.parent} :: e in lines && e != d ==> e.parent in nodes && e in e.parent.data
    {
    }

    twostate lemma LoseNode(d: Line, new n: Node)
      requires old(root in nodes) && root == old(root) && nodes == old(nodes) && lines == old(lines) - {d} &&
        n in nodes && old(NodeOk(n))
      requires d !in n.content && forall m :: m in nodes ==> unchanged(m)
      requires forall e {:trigger e.parent} :: e in lines ==> e.parent == old(e.parent)
      ensures NodeOk(n)
    {
      hide Concat;
      NodeKept(n);
    }

    /** Takes the line with the given number out of its node, which may be too small then. */
    method TakeOut(index: int) returns (data: Line, node: Node)
      requires Shape() && Sums() && Full() && 0 <= index < |root.content| && 1 < |root.content|
      modifies this`lines, nodes`data, nodes`content, nodes`count, nodes`nMarks
      ensures Shape() && Sums() && FullBut(node) && node in nodes && 1 <= Arity(node) < MAX_CAPACITY
      ensures MIN_CAPACITY - 1 <= Arity(node) || node == root
      ensures data == old(root.content)[index] && lines == old(lines) - {data}
      ensures root.content == old(root.content)[..index] + old(root.content)[index + 1..]
    {
      hide Shape, Sums, FullBut, NodeOk, Due, SamePlace, ShapeBut;
      RootFacts();
      RemovedAt(root.content, index);
      data := GetLine(index);
      LineIn(data);
      node := data.parent;
      BottomLine(data);
      IsFull(null, node);
      ghost var at := TakeLine(node, data);
      TotalOne(data);
      SameAt(node.content, at, root.content, index);
      RecountUp(node, -1, -data.nMarks, at, [data], [], data, index, 0);
      NowhereElse(data);
      LoseLine(data);
    }

    lemma SameAt(s: seq<Line>, k: nat, t: seq<Line>, l: nat)
      requires k < |s| && l < |t| && s[k] == t[l]
      ensures SamePlace(s, k, t, l, 0)
    {
    }

    lemma BottomLine(d: Line)
      requires Shape() && d in lines
      ensures d.parent.isBottom && (d.parent == root ==> Arity(d.parent) == |root.content|)
    {
      assert NodeOk(d.parent);
    }

    /** The marks of a line that is gone are put in front of a list and point to no line any more. */
    method FreeLine(data: Line, list: seq<LineMark>) returns (r: seq<LineMark>)
      modifies data.marks
      ensures r == Reverse(data.marks) + list
      ensures forall m :: m in data.marks ==> m.line == null && m.stamp == 0
    {
      r := list;
      var i := 0;
      while i < |data.marks|
        invariant 0 <= i <= |data.marks| && r == Reverse(data.marks[..i]) + list
        invariant forall k :: 0 <= k < i ==> data.marks[k].line == null && data.marks[k].stamp == 0
      {
        assert data.marks[..i + 1] == data.marks[..i] + [data.marks[i]];
        ReverseJoin(data.marks[..i], [data.marks[i]]);
        r := [data.marks[i]] + r;
        data.marks[i].SetLine(null, -1, 0);
        i := i + 1;
      }
      assert data.marks[..i] == data.marks;
    }

    /** Frees the marks of a line that is gone. */
    method LoseMarks(data: Line, list: seq<LineMark>) returns (r: seq<LineMark>)
      requires forall m :: m in data.marks ==> m in marks
      modifies this`marks, marks
      ensures r == Reverse(data.marks) + list && marks == old(marks) - Elements(data.marks)
      ensures forall m :: m in data.marks ==> m.line == null
      ensures forall m :: m in marks ==> m.line == old(m.line) && m.stamp == old(m.stamp)
    {
      r := FreeLine(data, list);
      marks := marks - Elements(data.marks);
    }

    /** Deletes one line; its marks go to a list, last one first. */
    method Delete(index: int, deletedMarks: seq<LineMark>) returns (r: seq<LineMark>)
      requires Valid() && 0 <= index < |root.content| && 1 < |root.content|
      modifies this, marks
      modifies nodes`children, nodes`data, nodes`content, nodes`count, nodes`nMarks, nodes`parent, lines`parent
      ensures Valid() && nodes <= old(nodes)
      ensures root.content == old(root.content)[..index] + old(root.content)[index + 1..]
      ensures var d := old(root.content)[index];
        && r == Reverse(old(d.marks)) + deletedMarks && lines == old(lines) - {d}
        && marks == old(marks) - Elements(old(d.marks)) && forall m :: m in old(d.marks) ==> m.line == null
      ensures forall m :: m in marks ==> m.line == old(m.line)
    {
      hide Shape, Sums, MarksOk, FullBut, NodeOk, Cached, Reverse;
      RootFacts();
      LineMarksOk();
      stamp := stamp + 1;
      var data, node := TakeOut(index);
      r := LoseMarks(data, deletedMarks);
      MergeUp(node);
      Deleted(data);
    }

    twostate lemma Deleted(data: Line)
      requires old(Valid()) && Shape() && Sums() && Full() && data in old(lines) && lines == old(lines) - {data}
      requires marks == old(marks) - Elements(old(data.marks)) && old(stamp) < stamp
      requires forall d :: d in old(lines) ==> d.marks == old(d.marks) && d.nMarks == old(d.nMarks)
      requires forall m :: m in marks ==> m.line == old(m.line) && m.stamp == old(m.stamp)
      ensures Valid()
    {
      hide Shape, Sums, FullBut, Distinct;
      forall m | m in marks ensures m.line != null && m.line in lines && m in m.line.marks && m.stamp < stamp {
        assert m.line == old(m.line) && m.stamp == old(m.stamp) && m in old(m.line.marks);
      }
      forall d, m | d in lines && m in d.marks ensures m in marks && m.line == d {
        assert m in old(d.marks) && old(m.line) == d;
        assert d != data && m !in old(data.marks);
      }
    }

    /** Makes num new lines out of the text after a line break in the given line. */
    method SplitLine(line: int, numNewLines: int)
      requires Valid() && 0 <= line < |root.content| && 0 < numNewLines
      modifies this`root, this`stamp, this`nodes, this`lines
      modifies nodes`children, nodes`data, nodes`content, nodes`count, nodes`nMarks, nodes`parent, lines`parent
      ensures Valid() && marks == old(marks) && |root.content| == |old(root.content)| + numNewLines
      ensures root.content[..line + 1] == old(root.content)[..line + 1]
      ensures root.content[line + 1 + numNewLines..] == old(root.content)[line + 1..]
      ensures forall d :: d in root.content[line + 1..line + 1 + numNewLines] ==> d !in old(lines) && d.marks == []
    {
      hide Valid;
      var i := 0;
      ghost var was := root.content;
      while i < numNewLines
        invariant 0 <= i <= numNewLines && Valid() && marks == old(marks) && |root.content| == |was| + i
        invariant fresh(nodes - old(nodes)) && fresh(lines - old(lines)) && old(lines) <= lines
        invariant root.content[..line + 1] == was[..line + 1]
        invariant root.content[line + 1 + i..] == was[line + 1..]
        invariant forall d :: d in root.content[line + 1..line + 1 + i] ==> d !in old(lines) && d.marks == []
      {
        ghost var now := root.content;
        var data := Insert(line + 1);
        Parted(now, line + 1, data, i);
        i := i + 1;
      }
    }

    /** Deletes lines from one on; their marks go to a list, last one first. */
    method DeleteRange(first: int, num: int, deletedMarks: seq<LineMark>) returns (r: seq<LineMark>,
      ghost gone: seq<LineMark>)
      requires Valid() && 0 <= first && 0 < num && first + num <= |root.content| && num < |root.content|
      modifies this, marks
      modifies nodes`children, nodes`data, nodes`content, nodes`count, nodes`nMarks, nodes`parent, lines`parent
      ensures Valid() && root.content == old(root.content)[..first] + old(root.content)[first + num..]
      ensures gone == old(AllMarks(root.content[first..first + num])) && r == Reverse(gone) + deletedMarks
      ensures marks == old(marks) - Elements(gone) && forall m :: m in gone ==> m.line == null
      ensures lines <= old(lines) && nodes <= old(nodes) && forall m :: m in marks ==> m.line == old(m.line)
    {
      hide *;
      ghost var was := root.content;
      var i := 0;
      r := deletedMarks;
      gone := [];
      MarksOfNone();
      assert was[first..first] == [];
      while i < num
        invariant 0 <= i <= num && Valid() && nodes <= old(nodes) && lines <= old(lines) && marks <= old(marks)
        invariant root.content == was[..first] + was[first + i..]
        invariant gone == old(AllMarks(was[first..first + i])) && r == Reverse(gone) + deletedMarks
        invariant marks == old(marks) - Elements(gone) && forall m :: m in gone ==> m.line == null
        invariant forall m :: m in marks ==> m.line == old(m.line)
      {
        ghost var d := root.content[first];
        MarksOfNext(was, first, i);
        SameMarksOf(was[first..first + (i + 1)]);
        SameMarksOf(was[first..first + i]);
        ReverseJoin(gone, d.marks);
        ElementsJoin(gone, d.marks);
        MinusJoin(old(marks), gone, d.marks);
        CutNext(was, first, i);
        gone := gone + d.marks;
        r := Delete(first, r);
        i := i + 1;
      }
    }

    lemma MinusJoin(all: set<LineMark>, a: seq<LineMark>, b: seq<LineMark>)
      ensures all - Elements(a) - Elements(b) == all - Elements(a + b)
      ensures forall m :: m in a + b <==> m in a || m in b
    {
      hide Elements;
      ElementsJoin(a, b);
    }

    lemma MarksOfNone()
      ensures AllMarks([]) == [] && Reverse<LineMark>([]) == [] && Elements<LineMark>([]) == {}
    {
    }

    lemma MarksOfNext(s: seq<Line>, first: nat, i: nat)
      requires first + i < |s|
      ensures AllMarks(s[first..first + (i + 1)]) == AllMarks(s[first..first + i]) + s[first + i].marks
    {
      assert s[first..first + (i + 1)][..i] == s[first..first + i];
    }

    /** Takes all marks off a line; they still point to it. */
    method TakeMarks(line: Line) returns (taken: seq<LineMark>)
      requires Valid() && line in lines
      modifies this`marks, line`marks, lines`nMarks, nodes`nMarks
      ensures Valid() && taken == old(line.marks) && line.marks == [] && marks == old(marks) - Elements(taken)
      ensures Distinct(taken) && forall m :: m in taken ==> m in old(marks) && m !in marks
    {
      hide Shape, Sums, FullBut, Elements, Cached;
      LineMarksOk();
      taken := line.marks;
      line.marks := [];
      if taken != [] {
        UpdateNMarks(line, -|taken|);
      }
      marks := marks - Elements(taken);
      MarksTaken(line, taken);
      ElementsJoin([], taken);
    }

    twostate lemma MarksTaken(line: Line, new taken: seq<LineMark>)
      requires old(Valid()) && Shape() && Sums() && Full() && line in lines && lines == old(lines) &&
        stamp == old(stamp)
      requires root.content == old(root.content)
      requires taken == old(line.marks) && marks == old(marks) - Elements(taken) && line.marks == []
      requires forall d :: d in lines && d != line ==> d.marks == old(d.marks)
      requires forall d :: d in lines ==> d.nMarks == old(d.nMarks) - if d == line then |taken| else 0
      requires forall m :: m in marks ==> m.line == old(m.line) && m.stamp == old(m.stamp) && m.lineNo == old(m.lineNo)
      ensures Valid()
    {
      hide Shape, Sums, FullBut;
      forall m | m in marks ensures m.line != null && m.line in lines && m in m.line.marks {
        assert m.line == old(m.line) && m in old(m.line.marks);
      }
      forall d, m | d in lines && m in d.marks ensures m in marks && m.line == d {
        assert d != line && m in old(d.marks) && old(m.line) == d;
      }
    }

    /** Puts marks on a line, behind those already there. */
    method PutMarks(line: Line, lineNo: int, moved: seq<LineMark>)
      requires Valid() && 0 <= lineNo < |root.content| && root.content[lineNo] == line
      requires Distinct(moved) && forall m :: m in moved ==> m !in marks
      modifies this`marks, line`marks, lines`nMarks, nodes`nMarks, moved
      ensures Valid() && line.marks == old(line.marks) + moved && marks == old(marks) + Elements(moved)
      ensures forall m :: m in moved ==> m.line == line
    {
      hide Shape, Sums, FullBut, Elements, Cached, MarksOk;
      RootFacts();
      if moved != [] {
        line.marks := line.marks + moved;
        for i := 0 to |moved|
          invariant forall k :: 0 <= k < i ==>
            moved[k].line == line && moved[k].lineNo == lineNo && moved[k].stamp == stamp
          modifies moved
        {
          moved[i].SetLine(line, lineNo, stamp);
        }
        UpdateNMarks(line, |moved|);
        marks := marks + Elements(moved);
        MarksPut(line, lineNo, moved);
      } else {
        EmptyElements<LineMark>();
      }
    }

    twostate lemma MarksPut(new line: Line, lineNo: int, new moved: seq<LineMark>)
      requires old(Valid()) && Shape() && Sums() && Full() && line in old(lines) && lines == old(lines) &&
        stamp == old(stamp)
      requires root.content == old(root.content) && 0 <= lineNo < |root.content| && root.content[lineNo] == line
      requires Distinct(moved) && (forall m :: m in moved ==> m !in old(marks)) && marks == old(marks) + Elements(moved)
      requires line.marks == old(line.marks) + moved
      requires forall d :: d in lines && d != line ==> d.marks == old(d.marks)
      requires forall d :: d in lines ==> d.nMarks == old(d.nMarks) + if d == line then |moved| else 0
      requires forall m :: m in moved ==> m.line == line && m.lineNo == lineNo && m.stamp == stamp
      requires forall m :: m in old(marks) ==>
        m.line == old(m.line) && m.stamp == old(m.stamp) && m.lineNo == old(m.lineNo)
      ensures Valid()
    {
      hide Shape, Sums, FullBut;
      JoinDistinct(old(line.marks), moved);
      forall m | m in marks ensures m.line != null && m.line in lines && m in m.line.marks {
        if m in old(marks) {
          assert m.line == old(m.line) && m in old(m.line.marks);
        }
      }
      forall d, m | d in lines && m in d.marks ensures m in marks && m.line == d {
        assert m in old(d.marks) || m in moved;
      }
    }

    lemma {:induction false} MarksOfKnown(s: seq<Line>)
      requires Valid() && forall d :: d in s ==> d in lines
      ensures forall m :: m in AllMarks(s) ==> m in marks
      ensures Elements(AllMarks(s)) <= marks
    {
      hide Valid;
      ValidFacts();
      if s != [] {
        MarksOfKnown(s[..|s| - 1]);
      }
    }

    lemma ValidFacts()
      requires Valid()
      ensures Shape() && Distinct(root.content) && (forall d :: d in root.content <==> d in lines)
      ensures forall d :: d in lines ==> Distinct(d.marks)
      ensures forall d, m :: d in lines && m in d.marks ==> m in marks
    {
      RootFacts();
    }

    /** The marks on some lines, after those of the last one are taken off. */
    twostate lemma TakenRange(s: seq<Line>, new line: Line)
      requires s != [] && s[|s| - 1] == line && Distinct(s) && (forall d :: d in s ==> d in old(lines)) &&
        line.marks == []
      requires forall d :: d in old(lines) && d != line ==> d.marks == old(d.marks)
      ensures AllMarks(s) == old(AllMarks(s[..|s| - 1]))
    {
      var t := s[..|s| - 1];
      SameMarksOf(t);
      assert AllMarks(s) == AllMarks(t) + [];
    }

    twostate lemma {:induction false} SameMarksOf(s: seq<Line>)
      requires forall d :: d in s ==> d.marks == old(d.marks)
      ensures AllMarks(s) == old(AllMarks(s))
    {
      if s != [] {
        SameMarksOf(s[..|s| - 1]);
      }
    }

    /** Takes the marks off the last of some lines. */
    method DetachLast(first: int, num: int) returns (line: Line, taken: seq<LineMark>, ghost gone: seq<LineMark>)
      requires Valid() && 0 <= first && 0 < num && first + num <= |root.content|
      modifies this`marks, lines`marks, lines`nMarks, nodes`nMarks
      ensures Valid() && line == root.content[first + num - 1] && taken == old(line.marks) && line.marks == []
      ensures Distinct(taken) && (forall m :: m in taken ==> m in old(marks) && m !in marks)
      ensures forall d :: d in lines && d != line ==> d.marks == old(d.marks)
      ensures gone == old(AllMarks(root.content[first..first + num - 1])) == AllMarks(root.content[first..first + num])
      ensures marks == old(marks) - Elements(taken) && Elements(gone) <= marks && Elements(taken) <= old(marks)
      ensures forall m :: m in gone ==> m in marks
    {
      hide *;
      ValidFacts();
      line := GetLine(first + num - 1);
      taken := TakeMarks(line);
      ghost var range := root.content[first..first + num];
      RangeDistinct(root.content, first, num);
      TakenRange(range, line);
      MarksOfKnown(range);
      gone := AllMarks(range);
      ElementsWithin(taken, old(marks));
    }

    /** Deletes lines first..first + num - 1, but for the marks on the last of them: they go to line moveTo of
        the rest. */
    method DeleteMoving(first: int, num: int, moveTo: int, movedMarks: seq<LineMark>, deletedMarks: seq<LineMark>)
      returns (moved: seq<LineMark>, deleted: seq<LineMark>, ghost last: Line, ghost gone: seq<LineMark>)
      requires Valid() && 0 <= first && 0 < num && first + num <= |root.content| && 0 <= moveTo < |root.content| - num
      modifies this, marks, lines`marks, lines`nMarks
      modifies nodes`children, nodes`data, nodes`content, nodes`count, nodes`nMarks, nodes`parent, lines`parent
      ensures Valid() && root.content == old(root.content)[..first] + old(root.content)[first + num..]
      ensures last == old(root.content)[first + num - 1] && gone == old(AllMarks(root.content[first..first + num - 1]))
      ensures moved == Reverse(old(last.marks)) + movedMarks && deleted == Reverse(gone) + deletedMarks
      ensures marks == old(marks) - Elements(gone) && forall m :: m in gone ==> m.line == null
      ensures forall d :: d in lines ==>
        d in old(lines) && d.marks == old(d.marks) + if d == root.content[moveTo] then old(last.marks) else []
      ensures forall m :: m in marks ==>
        m.line == if m in old(last.marks) then root.content[moveTo] else old(m.line)
    {
      hide *;
      var line, oldMarks;
      ValidFacts();
      line, oldMarks, gone := DetachLast(first, num);
      last := line;
      deleted, gone := DeleteRange(first, num, deletedMarks);
      ValidFacts();
      NotInRest(old(root.content), first, num);
      line := GetLine(moveTo);
      moved := PrependAll(oldMarks, movedMarks);
      PutMarks(line, moveTo, oldMarks);
      SetOutAndIn(old(marks), Elements(gone), oldMarks);
    }

    /** Deletes the lines first..first + num - 1. The marks on the last of them can be moved to another line. */
    method DeleteLines(first: int, num: int, moveTo: int, movedMarks: seq<LineMark>, deletedMarks: seq<LineMark>)
      returns (moved: seq<LineMark>, deleted: seq<LineMark>, ghost onto: seq<LineMark>, ghost gone: seq<LineMark>)
      requires Valid() && 0 <= first && 0 < num && first + num <= |root.content| && num < |root.content|
      requires moveTo < |root.content| - num
      modifies this, marks, lines`marks, lines`nMarks
      modifies nodes`children, nodes`data, nodes`content, nodes`count, nodes`nMarks, nodes`parent, lines`parent
      ensures Valid() && root.content == old(root.content)[..first] + old(root.content)[first + num..]
      ensures onto == if moveTo < 0 then [] else old(root.content[first + num - 1].marks)
      ensures gone == old(AllMarks(root.content[first..first + if moveTo < 0 then num else num - 1]))
      ensures moved == Reverse(onto) + movedMarks && deleted == Reverse(gone) + deletedMarks
      ensures marks == old(marks) - Elements(gone) && forall m :: m in gone ==> m.line == null
      ensures forall d :: d in lines ==>
        d in old(lines) && d.marks == old(d.marks) + if moveTo >= 0 && d == root.content[moveTo] then onto else []
      ensures forall m :: m in marks ==>
        m.line == if moveTo >= 0 && m in onto then root.content[moveTo] else old(m.line)
    {
      hide *;
      onto := [];
      if moveTo >= 0 {
        ghost var last;
        moved, deleted, last, gone := DeleteMoving(first, num, moveTo, movedMarks, deletedMarks);
        onto := old(last.marks);
      } else {
        moved := movedMarks;
        deleted, gone := DeleteRange(first, num, deletedMarks);
        MarksOfNone();
      }
    }
  }
}
