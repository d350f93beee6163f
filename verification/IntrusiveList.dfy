/**
 * The intrusive doubly linked lists of inc/queue.h, which the kernel uses for frames and environments.
 * Every operation is proved to be the sequence operation its name says.
 */
module IntrusiveList {
  import opened Lists

  class Node {
    /** prev_next_info */
    var next: Node?
    var prev: Node?

    constructor ()
      ensures next == null && prev == null
    {
      next, prev := null, null;
    }
  }

  /** The node at index i, null outside the list. */
  ghost function At(s: seq<Node>, i: int): (x: Node?)
    ensures x == null <==> !(0 <= i < |s|)
  {
    if 0 <= i < |s| then s[i] else null
  }

  type Links = map<Node, Node?>

  ghost function Nexts(s: seq<Node>): Links
    reads s
  {
    map x | x in s :: x.next
  }

  ghost function Prevs(s: seq<Node>): Links
    reads s
  {
    map x | x in s :: x.prev
  }

  /** The nodes of s point at their neighbours in s, and at nothing past the ends. */
  ghost predicate Linked(s: seq<Node>, nexts: Links, prevs: Links) {
    forall i :: 0 <= i < |s| ==> LinkedAt(s, nexts, prevs, i)
  }

  ghost predicate LinkedAt(s: seq<Node>, nexts: Links, prevs: Links, i: int)
    requires 0 <= i < |s|
  {
    s[i] in nexts && s[i] in prevs && nexts[s[i]] == At(s, i + 1) && prevs[s[i]] == At(s, i - 1)
  }

  ghost predicate Distinct(s: seq<Node>) {
    forall i, j :: 0 <= i < j < |s| ==> s[i] != s[j]
  }

  lemma NeighboursAt(s: seq<Node>, i: nat, nexts: Links, prevs: Links)
    requires i < |s| && Linked(s, nexts, prevs)
    ensures s[i] in nexts && s[i] in prevs && nexts[s[i]] == At(s, i + 1) && prevs[s[i]] == At(s, i - 1)
  {
    assert LinkedAt(s, nexts, prevs, i);
  }

  /** Linking elm between its new neighbours makes it the element at index i. */
  lemma Spliced(s: seq<Node>, i: nat, elm: Node, nexts: Links, prevs: Links, nexts': Links, prevs': Links)
    requires i <= |s| && elm !in s && Distinct(s) && Linked(s, nexts, prevs)
    requires elm in nexts' && nexts'[elm] == At(s, i) && elm in prevs' && prevs'[elm] == At(s, i - 1)
    requires forall x :: x in s ==> x in prevs && x in prevs' && prevs'[x] == if x == At(s, i) then elm else prevs[x]
    requires forall x :: x in s ==> x in nexts && x in nexts' && nexts'[x] == if x == At(s, i - 1) then elm else nexts[x]
    ensures var s' := s[..i] + [elm] + s[i..]; Distinct(s') && Linked(s', nexts', prevs')
  {
    var s' := s[..i] + [elm] + s[i..];
    forall j | 0 <= j < |s'| ensures LinkedAt(s', nexts', prevs', j) {
      if j < i {
        assert LinkedAt(s, nexts, prevs, j);
      } else if j > i {
        assert LinkedAt(s, nexts, prevs, j - 1);
      }
    }
  }

  /** Linking the neighbours of the element at index i to each other leaves the others in order. */
  lemma Unlinked(s: seq<Node>, i: nat, nexts: Links, prevs: Links, nexts': Links, prevs': Links)
    requires i < |s| && Distinct(s) && Linked(s, nexts, prevs)
    requires forall x :: x in s && x != s[i] ==>
      x in prevs && x in prevs' && prevs'[x] == if x == At(s, i + 1) then At(s, i - 1) else prevs[x]
    requires forall x :: x in s && x != s[i] ==>
      x in nexts && x in nexts' && nexts'[x] == if x == At(s, i - 1) then At(s, i + 1) else nexts[x]
    ensures var s' := s[..i] + s[i + 1..]; Distinct(s') && Linked(s', nexts', prevs')
  {
    var s' := s[..i] + s[i + 1..];
    forall j | 0 <= j < |s'| ensures LinkedAt(s', nexts', prevs', j) {
      assert LinkedAt(s, nexts, prevs, if j < i then j else j + 1);
    }
  }

  /** Linking the neighbours of an element to each other, as the fields show it. */
  lemma UnlinkedIn(s: seq<Node>, s': seq<Node>, i: nat, nexts: Links, prevs: Links)
    requires i < |s| && s' == s[..i] + s[i + 1..] && Distinct(s) && Linked(s, nexts, prevs)
    requires forall x :: x in s && x != s[i] ==> x in prevs && x.prev == if x == At(s, i + 1) then At(s, i - 1) else prevs[x]
    requires forall x :: x in s && x != s[i] ==> x in nexts && x.next == if x == At(s, i - 1) then At(s, i + 1) else nexts[x]
    ensures Distinct(s') && Linked(s', Nexts(s'), Prevs(s'))
  {
    OthersStay(s, s', i);
    hide Distinct, Linked;
    Unlinked(s, i, nexts, prevs, Nexts(s'), Prevs(s'));
  }

  lemma OthersStay(s: seq<Node>, s': seq<Node>, i: nat)
    requires i < |s| && s' == s[..i] + s[i + 1..]
    ensures forall x :: x in s && x != s[i] ==> x in s'
  {
    forall x | x in s && x != s[i] ensures x in s' {
      var j :| 0 <= j < |s| && s[j] == x;
      assert s'[if j < i then j else j - 1] == x;
    }
  }

  lemma StillLinked(s: seq<Node>, nexts: Links, prevs: Links)
    requires Linked(s, nexts, prevs)
    ensures forall i :: 0 <= i < |s| - 1 ==> s[i] in nexts && nexts[s[i]] == s[i + 1]
  {
    forall i | 0 <= i < |s| - 1 ensures s[i] in nexts && nexts[s[i]] == s[i + 1] {
      NeighboursAt(s, i, nexts, prevs);
    }
  }

  /** Linking an element between its new neighbours, as the fields show it. */
  lemma SplicedIn(s: seq<Node>, s': seq<Node>, i: nat, elm: Node, nexts: Links, prevs: Links)
    requires i <= |s| && elm !in s && s' == s[..i] + [elm] + s[i..] && Distinct(s) && Linked(s, nexts, prevs)
    requires elm.next == At(s, i) && elm.prev == At(s, i - 1)
    requires forall x :: x in s ==> x in prevs && x.prev == if x == At(s, i) then elm else prevs[x]
    requires forall x :: x in s ==> x in nexts && x.next == if x == At(s, i - 1) then elm else nexts[x]
    ensures Distinct(s') && Linked(s', Nexts(s'), Prevs(s'))
  {
    hide Distinct, Linked;
    Spliced(s, i, elm, nexts, prevs, Nexts(s'), Prevs(s'));
  }

  class List {
    var first: Node?
    var last: Node?
    /** Where LIST_FOREACH keeps the element it will go to next. */
    var ptrNext: Node?
    var size: nat
    ghost var contents: seq<Node>

    ghost predicate Valid()
      reads `first, `last, `size, `contents, contents
    {
      && size == |contents| && first == At(contents, 0) && last == At(contents, |contents| - 1)
      && Distinct(contents) && Linked(contents, Nexts(contents), Prevs(contents))
    }

    /** LIST_INIT */
    constructor ()
      ensures Valid() && contents == []
    {
      first, last, ptrNext, size, contents := null, null, null, 0, [];
    }

    /**
     * LIST_INSERT_HEAD. An element that is in the list already is not put there twice: the walk from the head then
     * comes back to it, and what followed it is cut off.
     */
    method InsertHead(elm: Node)
      requires Valid()
      modifies this, elm, contents
      ensures ptrNext == old(ptrNext)
      ensures elm !in old(contents) ==> Valid() && contents == [elm] + old(contents)
      ensures elm in old(contents) ==> contents == old(contents) && ComesBack(elm)
    {
      hide Linked, Distinct;
      ghost var was, nexts, prevs := contents, Nexts(contents), Prevs(contents);
      elm.next := first;
      if elm.next != null {
        first.prev := elm;
      } else {
        last := elm;
      }
      first := elm;
      elm.prev := null;
      size := size + 1;
      if elm in was {
        StillLinked(was, nexts, prevs);
      } else {
        contents := [elm] + contents;
        assert was[..0] + [elm] + was[0..] == contents;
        SplicedIn(was, contents, 0, elm, nexts, prevs);
      }
    }

    /** The walk from the head goes through the elements that were before elm, and reaches elm again. */
    ghost predicate ComesBack(elm: Node)
      reads this, elm, contents
    {
      && |contents| > 0 && first == elm && elm.next == contents[0]
      && forall i :: 0 <= i < |contents| - 1 && contents[i] != elm ==> contents[i].next == contents[i + 1]
    }

    method InsertTail(elm: Node)
      requires Valid() && elm !in contents
      modifies this, elm, contents
      ensures Valid() && contents == old(contents) + [elm] && ptrNext == old(ptrNext)
    {
      hide Linked, Distinct;
      ghost var was, nexts, prevs := contents, Nexts(contents), Prevs(contents);
      elm.prev := last;
      if elm.prev != null {
        last.next := elm;
      } else {
        first := elm;
      }
      last := elm;
      elm.next := null;
      size := size + 1;
      contents := contents + [elm];
      assert was[..|was|] + [elm] + was[|was|..] == contents;
      SplicedIn(was, contents, |was|, elm, nexts, prevs);
    }

    method InsertAfter(listelm: Node, elm: Node, ghost i: nat)
      requires Valid() && elm !in contents && i < |contents| && contents[i] == listelm
      modifies this, elm, contents
      ensures Valid() && contents == old(contents)[..i + 1] + [elm] + old(contents)[i + 1..] && ptrNext == old(ptrNext)
    {
      hide Linked, Distinct;
      ghost var was, nexts, prevs := contents, Nexts(contents), Prevs(contents);
      NeighboursAt(contents, i, nexts, prevs);
      elm.next := listelm.next;
      if elm.next != null {
        listelm.next.prev := elm;
      }
      listelm.next := elm;
      elm.prev := listelm;
      if elm.next == null {
        last := elm;
      }
      size := size + 1;
      contents := contents[..i + 1] + [elm] + contents[i + 1..];
      SplicedIn(was, contents, i + 1, elm, nexts, prevs);
    }

    method InsertBefore(listelm: Node, elm: Node, ghost i: nat)
      requires Valid() && elm !in contents && i < |contents| && contents[i] == listelm
      modifies this, elm, contents
      ensures Valid() && contents == old(contents)[..i] + [elm] + old(contents)[i..] && ptrNext == old(ptrNext)
    {
      hide Linked, Distinct;
      ghost var was, nexts, prevs := contents, Nexts(contents), Prevs(contents);
      NeighboursAt(contents, i, nexts, prevs);
      elm.prev := listelm.prev;
      elm.next := listelm;
      if listelm.prev != null {
        listelm.prev.next := elm;
      } else {
        first := elm;
      }
      listelm.prev := elm;
      size := size + 1;
      contents := contents[..i] + [elm] + contents[i..];
      SplicedIn(was, contents, i, elm, nexts, prevs);
    }

    method Remove(elm: Node, ghost i: nat)
      requires Valid() && i < |contents| && contents[i] == elm
      modifies this, contents
      ensures Valid() && contents == old(contents)[..i] + old(contents)[i + 1..] && ptrNext == old(ptrNext)
      ensures elm.next == null && elm.prev == null
    {
      hide Linked, Distinct;
      ghost var was, nexts, prevs := contents, Nexts(contents), Prevs(contents);
      NeighboursAt(contents, i, nexts, prevs);
      if elm.next != null {
        elm.next.prev := elm.prev;
      } else {
        last := elm.prev;
      }
      if elm.prev != null {
        elm.prev.next := elm.next;
      } else {
        first := elm.next;
      }
      elm.next := null;
      elm.prev := null;
      size := size - 1;
      contents := contents[..i] + contents[i + 1..];
      UnlinkedIn(was, contents, i, nexts, prevs);
    }

    lemma SecondElement()
      requires Valid()
      ensures first == At(contents, 0)
      ensures contents != [] ==> contents[0].next == At(contents, 1) && contents[0] !in contents[1..]
    {
      if contents != [] { NeighboursAt(contents, 0, Nexts(contents), Prevs(contents)); }
    }

    /** A list none of whose elements has moved is the list it was. */
    twostate lemma ValidStays()
      requires old(Valid()) && first == old(first) && last == old(last) && size == old(size) && contents == old(contents)
      requires forall y :: y in contents ==> y.next == old(y.next) && y.prev == old(y.prev)
      ensures Valid()
    {
      hide Linked, Distinct;
      assert Nexts(contents) == old(Nexts(contents)) && Prevs(contents) == old(Prevs(contents));
    }

    /** The body of the loop below: LIST_REMOVE of the current element and LIST_INSERT_HEAD into the other list. */
    method Move(to: List, x: Node)
      requires Valid() && to.Valid() && to != this && (forall y :: y in contents ==> y !in to.contents)
      requires contents != [] && contents[0] == x
      modifies this, contents, to, to.contents
      ensures Valid() && to.Valid() && ptrNext == old(ptrNext)
      ensures contents == old(contents)[1..] && to.contents == [x] + old(to.contents)
      ensures forall y :: y in contents ==> y !in to.contents
    {
      hide *;
      SecondElement();
      assert contents[..0] + contents[1..] == contents[1..];
      Remove(x, 0);
      to.ValidStays();
      assert x !in contents && forall y :: y in contents ==> y in old(contents) && y !in to.contents;
      label Removed:
      to.InsertHead(x);
      ValidStays@Removed();
    }

    /**
     * LIST_FOREACH whose body moves the current element to the head of another list: the next element is saved
     * before the body runs, so each element is visited once, in order.
     */
    method MoveAll(to: List)
      requires Valid() && to.Valid() && to != this && (forall x :: x in contents ==> x !in to.contents)
      modifies this, to, contents, to.contents
      ensures Valid() && to.Valid() && contents == [] && to.contents == Reverse(old(contents)) + old(to.contents)
    {
      hide Valid, Reverse, At;
      ghost var all, rest, k := contents, to.contents, 0;
      SecondElement();
      SecondOf(all, 0);
      NothingReversed(contents);
      var x := first;
      ptrNext := if x == null then null else x.next;
      while ptrNext != null || x != null
        invariant k <= |all| && Valid() && contents == all[k..]
        invariant forall y :: y in contents ==> y !in to.contents
        invariant forall i :: 0 <= i < |to.contents| ==> to.contents[i] in all || to.contents[i] in rest
        invariant to.Valid() && to.contents == Reverse(all[..k]) + rest
        invariant x == At(all, k) && ptrNext == At(all, k + 1)
        decreases |all| - k
      {
        SecondOf(all, k);
        MoveStep(all, rest, k);
        Move(to, x);
        SecondElement();
        SecondOf(all, k + 1);
        x := ptrNext;
        ptrNext := if x == null then null else x.next;
        k := k + 1;
      }
      assert all[..k] == all;
    }
  }

  function Reverse<T>(s: seq<T>): (r: seq<T>)
    ensures |r| == |s|
  {
    if s == [] then [] else Reverse(s[1..]) + [s[0]]
  }

  lemma MoveStep<T>(all: seq<T>, rest: seq<T>, k: nat)
    requires k < |all|
    ensures all[k..][1..] == all[k + 1..]
    ensures [all[k]] + (Reverse(all[..k]) + rest) == Reverse(all[..k + 1]) + rest
  {
    ReverseGrows(all, k);
  }

  /** The first two of what is left after k elements. */
  lemma SecondOf(all: seq<Node>, k: nat)
    requires k <= |all|
    ensures At(all[k..], 0) == At(all, k) && At(all[k..], 1) == At(all, k + 1) && (all[k..] == [] <==> At(all, k) == null)
    ensures k < |all| ==> all[k..][0] == At(all, k)
    ensures At(all, |all|) == null && At(all, |all| + 1) == null
  {
  }

  lemma NothingReversed<T>(s: seq<T>)
    ensures Reverse(s[..0]) == []
  {
  }

  lemma {:induction false} ReverseGrows<T>(s: seq<T>, k: nat)
    requires k < |s|
    ensures Reverse(s[..k + 1]) == [s[k]] + Reverse(s[..k])
  {
    if k == 0 {
      assert s[..1] == [s[0]] && s[..1][1..] == [];
    } else {
      ReverseGrows(s[1..], k - 1);
      assert s[..k + 1][1..] == s[1..][..k] && s[..k][1..] == s[1..][..k - 1];
    }
  }
}
