/** The growable array that owns its elements (src/moocpp/array.h). */
module Arrays {

  class Elm {
    constructor () {
    }
  }

  type Compare = (Elm, Elm) -> int

  ghost predicate Ordered(func: Compare, s: seq<Elm>) {
    forall i, j :: 0 <= i < j < |s| ==> func(s[i], s[j]) <= 0
  }

  /** A comparison of elements: any two are comparable, and it is transitive. */
  ghost predicate Comparison(func: Compare, s: set<Elm>) {
    && (forall a, b :: a in s && b in s ==> func(a, b) <= 0 || func(b, a) <= 0)
    && (forall a, b :: a in s && b in s ==> (func(a, b) > 0 ==> func(b, a) <= 0))
    && (forall a, b, c :: a in s && b in s && c in s && func(a, b) <= 0 && func(b, c) <= 0 ==> func(a, c) <= 0)
  }

  /** From the first greater element on, all are greater. */
  lemma GreaterFrom(func: Compare, s: seq<Elm>, i: nat, e: Elm, all: set<Elm>, j: nat)
    requires Comparison(func, all) && e in all && (forall x :: x in s ==> x in all) && Ordered(func, s)
    requires i <= j < |s| && func(s[i], e) > 0
    ensures func(s[j], e) > 0 && func(e, s[j]) <= 0
  {
    assert s[i] in all && s[j] in all;
    if i < j {
      assert func(s[i], s[j]) <= 0;
    }
  }

  /** Put behind everything that is not greater, an element keeps a sorted list sorted and comes after its equals. */
  lemma InsertedInOrder(func: Compare, s: seq<Elm>, i: nat, e: Elm, all: set<Elm>)
    requires i <= |s| && Comparison(func, all) && e in all && (forall x :: x in s ==> x in all) && Ordered(func, s)
    requires (forall j :: 0 <= j < i ==> func(s[j], e) <= 0) && (i < |s| ==> func(s[i], e) > 0)
    ensures Ordered(func, Inserted(s, i, e))
    ensures forall j :: i <= j < |s| ==> func(s[j], e) > 0
  {
    hide Comparison;
    var t := s[..i] + [e] + s[i..];
    forall j | i <= j < |s| ensures func(s[j], e) > 0 && func(e, s[j]) <= 0 {
      GreaterFrom(func, s, i, e, all, j);
    }
    forall j, k | 0 <= j < k < |t| ensures func(t[j], t[k]) <= 0 {
      assert t[j] == if j < i then s[j] else if j == i then e else s[j - 1];
      assert t[k] == if k < i then s[k] else if k == i then e else s[k - 1];
    }
  }

  ghost function Items(a: array<Elm?>, n: nat): (s: seq<Elm>)
    requires n <= a.Length && forall i :: 0 <= i < n ==> a[i] != null
    reads a
    ensures |s| == n && forall i :: 0 <= i < n ==> s[i] == a[i]
  {
    if n == 0 then [] else Items(a, n - 1) + [a[n - 1]]
  }

  /** What was copied in or taken over is what was freed and what is held. */
  ghost predicate Balanced(copied: multiset<Elm>, taken: multiset<Elm>, freed: multiset<Elm>, held: seq<Elm>) {
    copied + taken == freed + multiset(held)
  }

  lemma BalanceIn(c: multiset<Elm>, t: multiset<Elm>, f: multiset<Elm>, s: seq<Elm>, e: multiset<Elm>, now: seq<Elm>)
    requires Balanced(c, t, f, s) && multiset(now) == multiset(s) + e
    ensures Balanced(c + e, t, f, now) && Balanced(c, t + e, f, now)
  {
    assert (c + e) + t == (c + t) + e == c + (t + e);
    assert f + (multiset(s) + e) == (f + multiset(s)) + e;
  }

  lemma BalanceOut(c: multiset<Elm>, t: multiset<Elm>, f: multiset<Elm>, s: seq<Elm>, e: multiset<Elm>, now: seq<Elm>)
    requires Balanced(c, t, f, s) && multiset(s) == multiset(now) + e
    ensures Balanced(c, t, f + e, now)
  {
    assert f + (multiset(now) + e) == (f + e) + multiset(now);
  }

  ghost function All(s: seq<Elm>, e: Elm): set<Elm> {
    (set x | x in s) + {e}
  }

  lemma StillOrdered(func: Compare, s: seq<Elm>, i: nat, e: Elm)
    requires i <= |s| && (forall j :: 0 <= j < i ==> func(s[j], e) <= 0) && (i < |s| ==> func(s[i], e) > 0)
    ensures |Inserted(s, i, e)| == |s| + 1
    ensures Comparison(func, All(s, e)) && Ordered(func, s) ==>
      Ordered(func, Inserted(s, i, e)) && forall j :: i < j <= |s| ==> func(Inserted(s, i, e)[j], e) > 0
  {
    if Comparison(func, All(s, e)) && Ordered(func, s) {
      InsertedInOrder(func, s, i, e, All(s, e));
      assert forall j :: i < j <= |s| ==> Inserted(s, i, e)[j] == s[j - 1];
    }
  }

  ghost function Inserted(s: seq<Elm>, i: nat, e: Elm): seq<Elm>
    requires i <= |s|
  {
    s[..i] + [e] + s[i..]
  }

  lemma OneMore(s: seq<Elm>, i: nat, e: Elm, c: multiset<Elm>, t: multiset<Elm>, f: multiset<Elm>)
    requires i <= |s| && Balanced(c, t, f, s)
    ensures Balanced(c + multiset{e}, t, f, Inserted(s, i, e)) && |Inserted(s, i, e)| == |s| + 1
    ensures forall k :: 0 <= k < i ==> Inserted(s, i, e)[k] == s[k]
    ensures forall k :: i < k <= |s| ==> Inserted(s, i, e)[k] == s[k - 1]
    ensures Inserted(s, i, e)[i] == e
  {
    assert s == s[..i] + s[i..];
    BalanceIn(c, t, f, s, multiset{e}, s[..i] + [e] + s[i..]);
  }

  lemma Appended(s: seq<Elm>, e: Elm, c: multiset<Elm>, t: multiset<Elm>, f: multiset<Elm>)
    requires Balanced(c, t, f, s)
    ensures Balanced(c + multiset{e}, t, f, s + [e]) && Balanced(c, t + multiset{e}, f, s + [e])
  {
    BalanceIn(c, t, f, s, multiset{e}, s + [e]);
  }

  lemma OneLess(s: seq<Elm>, i: nat, c: multiset<Elm>, t: multiset<Elm>, f: multiset<Elm>)
    requires i < |s| && Balanced(c, t, f, s)
    ensures Balanced(c, t, f + multiset{s[i]}, s[..i] + s[i + 1..])
  {
    assert s == s[..i] + [s[i]] + s[i + 1..];
    BalanceOut(c, t, f, s, multiset{s[i]}, s[..i] + s[i + 1..]);
  }

  lemma AllMore(s: seq<Elm>, x: seq<Elm>, c: multiset<Elm>, t: multiset<Elm>, f: multiset<Elm>)
    requires Balanced(c, t, f, s)
    ensures Balanced(c + multiset(x), t, f, s + x)
  {
    BalanceIn(c, t, f, s, multiset(x), s + x);
  }

  lemma AllLess(s: seq<Elm>, c: multiset<Elm>, t: multiset<Elm>, f: multiset<Elm>)
    requires Balanced(c, t, f, s)
    ensures Balanced(c, t, f + multiset(s), [])
  {
    BalanceOut(c, t, f, s, multiset(s), []);
  }

  lemma NothingBefore(s: seq<Elm>)
    ensures [] + s == s && multiset{} + multiset(s) == multiset(s)
  {
  }

  lemma Together(c: multiset<Elm>, t: multiset<Elm>, f: multiset<Elm>, c2: multiset<Elm>, t2: multiset<Elm>,
    f2: multiset<Elm>, s: seq<Elm>)
    requires Balanced(c, t, f, []) && Balanced(c2, t2, f2, s)
    ensures Balanced(c + c2, t + t2, f + f2, s)
  {
    assert (c + c2) + (t + t2) == (c + t) + (c2 + t2);
    assert (f + f2) + multiset(s) == f + (f2 + multiset(s));
    assert f + multiset([]) == f;
  }

  class Array {
    var elms: array?<Elm?>
    var nElms: nat
    var nAllocd: nat
    ghost var copied: multiset<Elm>
    ghost var taken: multiset<Elm>
    ghost var freed: multiset<Elm>
    ghost var peak: nat

    ghost function Repr(): set<object>
      reads this
    {
      if elms == null then {this} else {this, elms}
    }

    /** The places in use hold elements. */
    ghost predicate Filled()
      reads this, Repr()
    {
      && (if elms == null then nAllocd == 0 else elms.Length == nAllocd)
      && nElms <= nAllocd
      && (elms != null ==> forall i :: 0 <= i < nElms ==> elms[i] != null)
    }

    /** The elements, the balance of what went in and out, and how much room there is. */
    ghost predicate Valid()
      reads this, Repr()
    {
      && Filled() && nElms <= peak && 5 * nAllocd <= 6 * peak
      && Balanced(copied, taken, freed, Contents())
    }

    ghost function Contents(): (s: seq<Elm>)
      requires Filled()
      reads this, Repr()
      ensures |s| == nElms && forall i :: 0 <= i < nElms ==> s[i] == elms[i]
    {
      if elms == null then [] else Items(elms, nElms)
    }

    constructor ()
      ensures Valid() && Contents() == [] && fresh(Repr()) && copied == taken == freed == multiset{} && peak == 0
    {
      elms, nElms, nAllocd := null, 0, 0;
      copied, taken, freed, peak := multiset{}, multiset{}, multiset{}, 0;
    }

    /** Room for more elements; the new places are empty. */
    method Grow(amount: nat)
      requires Valid()
      modifies Repr()
      ensures elms == old(elms) || fresh(elms)
      ensures nElms == old(nElms) + amount && nElms <= nAllocd &&
        (if elms == null then nAllocd == 0 else elms.Length == nAllocd)
      ensures elms != null ==> forall i :: 0 <= i < nElms ==>
        elms[i] == if i < old(nElms) then old(Contents())[i] else null
      ensures nElms <= peak && 5 * nAllocd <= 6 * peak && copied == old(copied) && taken == old(taken) &&
        freed == old(freed)
    {
      hide Items;
      var required := nElms + amount;
      if required > nAllocd {
        nAllocd := if nAllocd * 12 / 10 > required then nAllocd * 12 / 10 else required;
        elms := Reallocate(elms, nElms, nAllocd);
      }
      if elms != null {
        Empty(elms, nElms, required);
      }
      nElms := required;
      peak := if required > peak then required else peak;
    }

    /** Nothing has been copied in, taken over or freed since. */
    twostate predicate NoneBooked()
      reads this
    {
      copied == old(copied) && taken == old(taken) && freed == old(freed)
    }

    lemma Opened()
      requires Valid()
      ensures Filled() && |Contents()| == nElms <= nAllocd && nElms <= peak && 5 * nAllocd <= 6 * peak
      ensures if elms == null then nAllocd == 0 else elms.Length == nAllocd && forall i :: 0 <= i < nElms ==>
        elms[i] == Contents()[i]
      ensures Balanced(copied, taken, freed, Contents())
    {
    }

    lemma Closed(s: seq<Elm>)
      requires |s| == nElms <= nAllocd && nElms <= peak && 5 * nAllocd <= 6 * peak
      requires if elms == null then nAllocd == 0 else elms.Length == nAllocd && forall i :: 0 <= i < nElms ==>
        elms[i] == s[i]
      requires Balanced(copied, taken, freed, s)
      ensures Valid() && Contents() == s
    {
      assert Filled();
      assert Contents() == s;
    }

    method Append(elm: Elm?)
      requires Valid()
      modifies Repr()
      ensures Valid() && (elms == old(elms) || fresh(elms))
      ensures elm == null ==> Contents() == old(Contents()) && NoneBooked()
      ensures elm != null ==>
        Contents() == old(Contents()) + [elm] && copied == old(copied) + multiset{elm} &&
        taken == old(taken) && freed == old(freed)
    {
      hide Items, Contents, Valid, Filled, Balanced;
      Opened();
      if elm == null {
        return;
      }
      ghost var was := Contents();
      Grow(1);
      elms[nElms - 1] := elm;
      Appended(was, elm, copied, taken, freed);
      copied := copied + multiset{elm};
      Closed(was + [elm]);
    }

    method Take(elm: Elm?)
      requires Valid()
      modifies Repr()
      ensures Valid() && (elms == old(elms) || fresh(elms))
      ensures elm == null ==> Contents() == old(Contents()) && NoneBooked()
      ensures elm != null ==>
        Contents() == old(Contents()) + [elm] && copied == old(copied) &&
        taken == old(taken) + multiset{elm} && freed == old(freed)
    {
      hide Items, Contents, Valid, Filled, Balanced;
      Opened();
      if elm == null {
        return;
      }
      ghost var was := Contents();
      Grow(1);
      elms[nElms - 1] := elm;
      Appended(was, elm, copied, taken, freed);
      taken := taken + multiset{elm};
      Closed(was + [elm]);
    }

    /** Copies of all elements of another array. Appended to itself, an array that is not empty is copied beyond
        its end: its size, which ends the loop, has grown before. */
    method AppendArray(other: Array?) returns (inside: bool)
      requires Valid() && (other != null && other != this ==> other.Valid() && other.Repr() !! Repr())
      modifies Repr()
      ensures inside <==> other != this || old(nElms) == 0
      ensures inside ==> Valid() && (elms == old(elms) || fresh(elms))
      ensures inside && (other == null || other == this) ==> Contents() == old(Contents()) && NoneBooked()
      ensures other != null && other != this ==>
        && other.Valid() && other.Contents() == old(other.Contents())
        && Contents() == old(Contents()) + old(other.Contents())
        && copied == old(copied) + multiset(old(other.Contents())) && taken == old(taken) && freed == old(freed)
    {
      inside := true;
      if other != this {
        AppendOther(other);
      } else if nElms != 0 {
        inside := AppendSelf();
      }
    }

    method AppendSelf() returns (inside: bool)
      requires Valid() && nElms != 0
      modifies Repr()
      ensures !inside
    {
      hide Items, Contents, Filled, Balanced;
      var oldSize := nElms;
      Grow(nElms);
      var i := 0;
      while i < nElms
        invariant 0 <= i <= oldSize && nElms == oldSize + oldSize <= nAllocd && elms != null && elms.Length == nAllocd
        invariant elms == old(elms) || fresh(elms)
      {
        if oldSize + i >= nElms {
          return false;
        }
        elms[oldSize + i] := elms[i];
        i := i + 1;
      }
      return true;
    }

    method AppendOther(other: Array?)
      requires Valid() && (other != null ==> other.Valid() && other.Repr() !! Repr())
      modifies Repr()
      ensures Valid() && (elms == old(elms) || fresh(elms))
      ensures other == null ==> Contents() == old(Contents()) && NoneBooked()
      ensures other != null ==> other.Valid() && other.Contents() == old(other.Contents())
      ensures other != null ==>
        && Contents() == old(Contents()) + old(other.Contents())
        && copied == old(copied) + multiset(old(other.Contents())) && taken == old(taken) && freed == old(freed)
    {
      hide Items, Contents, Valid, Filled, Balanced;
      Opened();
      if other == null {
        return;
      }
      other.Opened();
      if other.nElms == 0 {
        assert other.Contents() == [];
        assert Contents() + [] == Contents();
        return;
      }
      var oldSize := nElms;
      ghost var was, more := Contents(), other.Contents();
      Grow(other.nElms);
      CopyTo(other.elms, other.nElms, elms, oldSize);
      AllMore(was, more, copied, taken, freed);
      copied := copied + multiset(more);
      Closed(was + more);
    }

    /** Takes out the first place that holds the element and frees it. */
    method Remove(elm: Elm?) returns (ghost at: nat)
      requires Valid()
      modifies Repr()
      ensures Valid() && elms == old(elms)
      ensures elm == null || elm !in old(Contents()) ==> Contents() == old(Contents()) && NoneBooked()
      ensures elm != null && elm in old(Contents()) ==>
        && copied == old(copied) && taken == old(taken) && freed == old(freed) + multiset{elm}
        && at < old(nElms) && old(Contents())[at] == elm && elm !in old(Contents())[..at]
        && Contents() == old(Contents())[..at] + old(Contents())[at + 1..]
    {
      hide Items, Contents, Valid, Filled, Balanced;
      Opened();
      at := 0;
      if elm == null {
        return;
      }
      ghost var was := Contents();
      for i := 0 to nElms
        invariant unchanged(Repr()) && elm !in was[..i]
      {
        if elms[i] == elm {
          Close(elms, i, nElms);
          nElms := nElms - 1;
          at := i;
          OneLess(was, i, copied, taken, freed);
          freed := freed + multiset{elm};
          Closed(was[..i] + was[i + 1..]);
          return;
        }
      }
    }

    /** Frees all elements and keeps the buffer. */
    method Clear()
      requires Valid()
      modifies Repr()
      ensures Valid() && elms == old(elms) && Contents() == []
      ensures copied == old(copied) && taken == old(taken) && freed == old(freed) + multiset(old(Contents()))
    {
      hide Items, Contents, Valid, Filled, Balanced;
      Opened();
      ghost var was := Contents();
      var freeing, nFreeing := elms, nElms;
      AllLess(was, copied, taken, freed);
      nElms := 0;
      FreeAll(freeing, nFreeing, was);
      Closed([]);
    }

    /** Frees the first n places of a buffer, one after the other. */
    method FreeAll(freeing: array?<Elm?>, n: nat, ghost held: seq<Elm>)
      requires |held| == n && (freeing == null ==> n == 0)
      requires freeing != null ==> n <= freeing.Length && forall i :: 0 <= i < n ==> freeing[i] == held[i]
      modifies this`freed
      ensures freed == old(freed) + multiset(held)
    {
      for i := 0 to n
        invariant freed == old(freed) + multiset(held[..i])
      {
        var e: Elm := freeing[i];
        assert held[..i + 1] == held[..i] + [e];
        freed := freed + multiset{e};
      }
      assert held[..n] == held;
    }

    method Find(elm: Elm?) returns (r: int)
      requires Valid()
      ensures elm == null || elm !in Contents() ==> r == -1
      ensures elm != null && elm in Contents() ==> 0 <= r < nElms && Contents()[r] == elm && elm !in Contents()[..r]
    {
      hide Items;
      if elm == null {
        return -1;
      }
      for i := 0 to nElms
        invariant elm !in Contents()[..i]
      {
        if elms[i] == elm {
          return i;
        }
      }
      return -1;
    }

    /** Inserts a copy in front of the first greater element. */
    method InsertSorted(elm: Elm?, func: Compare) returns (i: nat)
      requires Valid()
      modifies Repr()
      ensures Valid() && (elms == old(elms) || fresh(elms))
      ensures elm == null ==> i == 0 && Contents() == old(Contents()) && NoneBooked()
      ensures elm != null ==> i <= old(nElms) && Contents() == Inserted(old(Contents()), i, elm)
      ensures elm != null ==> copied == old(copied) + multiset{elm} && taken == old(taken) && freed == old(freed)
      ensures elm != null ==>
        (forall j :: 0 <= j < i ==> func(old(Contents())[j], elm) <= 0) &&
          (i < old(nElms) ==> func(old(Contents())[i], elm) > 0)
      ensures elm != null && Comparison(func, All(old(Contents()), elm)) && Ordered(func, old(Contents())) ==>
        Ordered(func, Contents()) && forall j :: i < j < nElms ==> func(Contents()[j], elm) > 0
    {
      hide Items, Contents, Valid, Filled, Balanced, Inserted, Ordered, Comparison, All;
      Opened();
      i := 0;
      if elm == null {
        return;
      }
      var e: Elm := elm;
      i := PlaceFor(e, func);
      ghost var was := Contents();
      InsertAt(i, e);
      StillOrdered(func, was, i, e);
      Opened();
    }

    method InsertAt(i: nat, e: Elm)
      requires Valid() && i <= nElms
      modifies Repr()
      ensures Valid() && (elms == old(elms) || fresh(elms)) && Contents() == Inserted(old(Contents()), i, e)
      ensures copied == old(copied) + multiset{e} && taken == old(taken) && freed == old(freed)
    {
      hide Items, Contents, Valid, Filled, Balanced, Inserted;
      Opened();
      ghost var was := Contents();
      Grow(1);
      Open(elms, i, nElms);
      elms[i] := e;
      OneMore(was, i, e, copied, taken, freed);
      copied := copied + multiset{e};
      Closed(Inserted(was, i, e));
    }

    constructor Copy(other: Array)
      requires other.Valid()
      ensures Valid() && fresh(Repr()) && other.Valid() && Contents() == other.Contents()
      ensures copied == multiset(Contents()) && taken == freed == multiset{}
    {
      elms, nElms, nAllocd := null, 0, 0;
      copied, taken, freed, peak := multiset{}, multiset{}, multiset{}, 0;
      new;
      Closed([]);
      other.Opened();
      CopyFrom(other);
    }

    method CopyFrom(other: Array)
      requires Valid() && other.Valid() && other.Repr() !! Repr() && Contents() == [] &&
        copied == taken == freed == multiset{}
      modifies Repr()
      ensures Valid() && (elms == old(elms) || fresh(elms)) && other.Valid() &&
        other.Contents() == old(other.Contents()) == Contents()
      ensures copied == multiset(Contents()) && taken == freed == multiset{}
    {
      hide Items, Contents, Valid, Filled, Balanced;
      AppendOther(other);
      other.Opened();
      NothingBefore(other.Contents());
    }

    /** Takes over another array's buffer, elements and balance. */
    constructor Move(other: Array)
      requires other.Valid()
      modifies other
      ensures Valid() && Contents() == old(other.Contents()) && elms == old(other.elms)
      ensures copied == old(other.copied) && taken == old(other.taken) && freed == old(other.freed)
      ensures other.Valid() && other.Contents() == [] && other.elms == null
      ensures other.copied == other.taken == other.freed == multiset{}
    {
      elms, nElms, nAllocd := other.elms, other.nElms, other.nAllocd;
      copied, taken, freed, peak := other.copied, other.taken, other.freed, other.peak;
      new;
      other.GiveUp();
      Closed(old(other.Contents()));
    }

    /** What a moved-from array is left with: nothing. */
    method GiveUp()
      modifies this
      ensures Valid() && Contents() == [] && elms == null && copied == taken == freed == multiset{}
    {
      elms, nElms, nAllocd := null, 0, 0;
      copied, taken, freed, peak := multiset{}, multiset{}, multiset{}, 0;
      Closed([]);
    }

    /** Copy assignment; assigning an array to itself changes nothing. */
    method Assign(other: Array)
      requires Valid() && other.Valid() && (other == this || other.Repr() !! Repr())
      modifies Repr()
      ensures Valid() && (elms == old(elms) || fresh(elms))
      ensures other.Valid() && other.Contents() == old(other.Contents()) && Contents() == old(other.Contents())
      ensures other == this ==> NoneBooked()
      ensures other != this ==>
        copied == old(copied) + multiset(Contents()) && taken == old(taken) &&
          freed == old(freed) + multiset(old(Contents()))
    {
      hide Items, Contents, Valid, Filled, Balanced;
      if this != other {
        Clear();
        AppendOther(other);
        other.Opened();
        NothingBefore(other.Contents());
      }
    }

    /** Move assignment. */
    method MoveAssign(other: Array)
      requires Valid() && other.Valid() && (other == this || other.Repr() !! Repr())
      modifies Repr(), other
      ensures Valid() && Contents() == old(other.Contents()) && elms == old(other.elms)
      ensures other == this ==> NoneBooked()
      ensures other != this ==> other.Valid() && other.Contents() == [] && other.elms == null
      ensures other != this ==> copied == old(copied) + old(other.copied) && taken == old(taken) + old(other.taken)
      ensures other != this ==> freed == old(freed) + multiset(old(Contents())) + old(other.freed)
    {
      hide Items, Contents, Valid, Filled, Balanced;
      if this != other {
        Clear();
        TakeOver(other);
      }
    }

    /** An empty array gets rid of its buffer and takes over another one. */
    method TakeOver(other: Array)
      requires Valid() && other.Valid() && other != this && Contents() == []
      modifies this, other
      ensures Valid() && Contents() == old(other.Contents()) && elms == old(other.elms)
      ensures other.Valid() && other.Contents() == [] && other.elms == null
      ensures copied == old(copied) + old(other.copied) && taken == old(taken) + old(other.taken)
      ensures freed == old(freed) + old(other.freed)
    {
      hide Items, Contents, Valid, Filled, Balanced;
      Opened();
      other.Opened();
      ghost var more := other.Contents();
      elms, nElms, nAllocd, peak := other.elms, other.nElms, other.nAllocd, other.peak;
      Together(copied, taken, freed, other.copied, other.taken, other.freed, more);
      copied, taken, freed := copied + other.copied, taken + other.taken, freed + other.freed;
      other.GiveUp();
      Closed(more);
    }

    /** The first place whose element is greater. */
    method PlaceFor(elm: Elm, func: Compare) returns (i: nat)
      requires Valid()
      ensures i <= nElms && forall j :: 0 <= j < i ==> func(Contents()[j], elm) <= 0
      ensures i < nElms ==> func(Contents()[i], elm) > 0
    {
      hide Items, Contents, Valid, Filled, Balanced;
      Opened();
      i := 0;
      while i < nElms && func(elms[i], elm) <= 0
        invariant i <= nElms && forall j :: 0 <= j < i ==> func(Contents()[j], elm) <= 0
      {
        i := i + 1;
      }
    }
  }

  /** Copies of the first n places of one buffer, from a place on in another. */
  method CopyTo(from: array<Elm?>, n: nat, to: array<Elm?>, start: nat)
    requires from != to && n <= from.Length && start + n <= to.Length
    modifies to
    ensures forall k :: 0 <= k < to.Length ==> to[k] == if start <= k < start + n then from[k - start] else old(to[k])
  {
    for i := 0 to n
      invariant forall k :: 0 <= k < to.Length ==>
        to[k] == if start <= k < start + i then from[k - start] else old(to[k])
    {
      to[start + i] := from[i];
    }
  }

  /** Closes the gap at i. */
  method Close(a: array<Elm?>, i: nat, n: nat)
    requires i < n <= a.Length
    modifies a
    ensures forall k :: 0 <= k < n - 1 ==> a[k] == old(a[if k < i then k else k + 1])
  {
    for j := i to n - 1
      invariant forall k :: 0 <= k < n ==> a[k] == old(a[if k < i || j <= k then k else k + 1])
    {
      a[j] := a[j + 1];
    }
  }

  /** Makes a gap at i, over the last place. */
  method Open(a: array<Elm?>, i: nat, n: nat)
    requires i < n <= a.Length
    modifies a
    ensures forall k :: 0 <= k < i ==> a[k] == old(a[k])
    ensures forall k :: i < k < n ==> a[k] == old(a[k - 1])
  {
    var j := n - 1;
    while j > i
      invariant i <= j < n
      invariant forall k :: 0 <= k <= j ==> a[k] == old(a[k])
      invariant forall k :: j < k < n ==> a[k] == old(a[k - 1])
    {
      a[j] := a[j - 1];
      j := j - 1;
    }
  }

  /** A larger buffer with the same first n places. */
  method Reallocate(a: array?<Elm?>, n: nat, size: nat) returns (r: array<Elm?>)
    requires if a == null then n == 0 else n <= a.Length
    requires n <= size
    ensures fresh(r) && r.Length == size && forall i :: 0 <= i < n ==> r[i] == a[i]
  {
    r := new Elm?[size](_ => null);
    for i := 0 to n
      invariant forall k :: 0 <= k < i ==> r[k] == a[k]
    {
      r[i] := a[i];
    }
  }

  method Empty(a: array<Elm?>, from: nat, to: nat)
    requires from <= to <= a.Length
    modifies a
    ensures forall i :: 0 <= i < a.Length ==> a[i] == if from <= i < to then null else old(a[i])
  {
    for i := from to to
      invariant forall k :: 0 <= k < a.Length ==> a[k] == if from <= k < i then null else old(a[k])
    {
      a[i] := null;
    }
  }
}
