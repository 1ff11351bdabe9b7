/** The numbers of untitled documents (src/mooedit/mooedit-fileops.cpp). */
module Untitleds {

  type Doc = int

  ghost predicate Distinct<T>(s: seq<T>) {
    forall i, j :: 0 <= i < j < |s| ==> s[i] != s[j]
  }

  ghost function Elements(s: seq<nat>): (r: set<nat>)
    ensures forall x :: x in s <==> x in r
  {
    set x | x in s
  }

  lemma {:induction false} Size(s: seq<nat>)
    requires Distinct(s)
    ensures |Elements(s)| == |s|
  {
    if s != [] {
      Size(s[1..]);
      assert Elements(s) == {s[0]} + Elements(s[1..]);
    }
  }

  ghost function UpTo(n: nat): set<nat> {
    if n == 0 then {} else UpTo(n - 1) + {n}
  }

  lemma {:induction false} UpToIs(n: nat)
    ensures |UpTo(n)| == n && forall i :: i in UpTo(n) <==> 1 <= i <= n
  {
    if n > 0 {
      UpToIs(n - 1);
    }
  }

  lemma Subset<T>(a: set<T>, b: set<T>)
    requires a <= b
    ensures |a| <= |b|
  {
    assert b == a + (b - a);
  }

  /** A list of different numbers that has all of 1..n has n elements at least. */
  lemma Enough(s: seq<nat>, n: nat)
    requires Distinct(s) && forall i :: 1 <= i <= n ==> i in s
    ensures n <= |s|
  {
    Size(s);
    UpToIs(n);
    Subset(UpTo(n), Elements(s));
  }

  /** Different documents have different positive numbers, and the list has those and no others, once each. */
  ghost predicate Fits(used: seq<nat>, numbers: map<Doc, nat>) {
    && Distinct(used)
    && (forall d :: d in numbers ==> 0 < numbers[d] && numbers[d] in used)
    && (forall n :: n in used ==> Has(numbers, n))
    && (forall d, e :: d in numbers && e in numbers && numbers[d] == numbers[e] ==> d == e)
  }

  /** Some document has the number. */
  ghost predicate Has(numbers: map<Doc, nat>, n: nat) {
    exists d :: d in numbers && numbers[d] == n
  }

  lemma FitsMore(used: seq<nat>, numbers: map<Doc, nat>, doc: Doc, n: nat)
    requires Fits(used, numbers) && doc !in numbers && 0 < n && n !in used
    ensures Fits([n] + used, numbers[doc := n])
  {
    var now, list := numbers[doc := n], [n] + used;
    assert now[doc] == n && list[0] == n;
    assert forall i :: 1 <= i < |list| ==> list[i] == used[i - 1];
    forall m | m in list ensures Has(now, m) {
      if m != n {
        assert Has(numbers, m);
        var d :| d in numbers && numbers[d] == m;
        assert now[d] == m;
      }
    }
  }

  lemma FitsLess(used: seq<nat>, numbers: map<Doc, nat>, doc: Doc, i: nat)
    requires Fits(used, numbers) && doc in numbers && i < |used| && used[i] == numbers[doc]
    ensures Fits(used[..i] + used[i + 1..], numbers - {doc})
  {
    var now, list := numbers - {doc}, used[..i] + used[i + 1..];
    Without(used, i);
    forall m | m in list ensures Has(now, m) {
      assert Has(numbers, m);
      var d :| d in numbers && numbers[d] == m;
      assert d in now && now[d] == m;
    }
  }

  lemma Without(s: seq<nat>, i: nat)
    requires Distinct(s) && i < |s|
    ensures var r := s[..i] + s[i + 1..]; Distinct(r) && forall x :: x in r <==> x in s && x != s[i]
  {
    var r := s[..i] + s[i + 1..];
    assert forall j :: 0 <= j < |r| ==> r[j] == s[if j < i then j else j + 1];
    forall x | x in s && x != s[i] ensures x in r {
      var j :| 0 <= j < |s| && s[j] == x;
      assert r[if j < i then j else j - 1] == x;
    }
  }

  class Untitled {
    var used: seq<nat>
    var numbers: map<Doc, nat>

    constructor ()
      ensures Valid() && numbers == map[]
    {
      used, numbers := [], map[];
    }

    ghost predicate Valid()
      reads this
    {
      Fits(used, numbers)
    }

    /** The number a document has, or else the least one that is free. */
    method Add(doc: Doc) returns (n: nat)
      requires Valid()
      modifies this
      ensures Valid() && numbers == old(numbers)[doc := n]
      ensures doc in old(numbers) ==> n == old(numbers)[doc]
      ensures doc !in old(numbers) ==> 1 <= n <= |old(numbers)| + 1 && !Has(old(numbers), n)
      ensures doc !in old(numbers) ==> forall m :: 0 < m < n ==> Has(old(numbers), m)
    {
      if doc in numbers {
        assert numbers == numbers[doc := numbers[doc]];
        return numbers[doc];
      }
      n := 1;
      while n in used
        invariant Valid() && used == old(used) && numbers == old(numbers)
        invariant 1 <= n && forall m :: 0 < m < n ==> m in used
        decreases |used| + 1 - n
      {
        Enough(used, n);
        n := n + 1;
      }
      Enough(used, n - 1);
      AsMany(used, numbers);
      FitsMore(used, numbers, doc, n);
      used := [n] + used;
      numbers := numbers[doc := n];
    }

    /** A document that is closed or gets a file gives its number back. */
    method Remove(doc: Doc)
      requires Valid()
      modifies this
      ensures Valid() && numbers == old(numbers) - {doc}
    {
      if doc in numbers {
        var i := 0;
        while used[i] != numbers[doc]
          invariant 0 <= i < |used| && numbers[doc] in used[i..]
          decreases |used| - i
        {
          i := i + 1;
        }
        FitsLess(used, numbers, doc, i);
        used := used[..i] + used[i + 1..];
        numbers := numbers - {doc};
      } else {
        assert numbers - {doc} == numbers;
      }
    }
  }

  lemma NoNumbers(numbers: map<Doc, nat>)
    requires Fits([], numbers)
    ensures numbers == map[]
  {
    assert forall d :: d !in numbers;
  }

  lemma UserOf(used: seq<nat>, numbers: map<Doc, nat>) returns (d: Doc)
    requires Fits(used, numbers) && used != []
    ensures d in numbers && numbers[d] == used[0]
  {
    assert Has(numbers, used[0]);
    d :| d in numbers && numbers[d] == used[0];
  }

  /** There are as many numbers in use as documents that have one. */
  lemma {:induction false} AsMany(used: seq<nat>, numbers: map<Doc, nat>)
    requires Fits(used, numbers)
    ensures |used| == |numbers|
  {
    hide Fits;
    if used == [] {
      NoNumbers(numbers);
    } else {
      var d := UserOf(used, numbers);
      FitsLess(used, numbers, d, 0);
      assert used[..0] + used[1..] == used[1..];
      AsMany(used[1..], numbers - {d});
    }
  }
}
