/** The list iterator. It keeps its element's two neighbours, so that a traversal survives the
    removal of the element it stands on, and swap exchanges the places of two elements. */
module CircListIterator {
  import opened CircList
  import opened RingAlgebra

  class Iterator {
    var elt: Elt
    var prev: Elt
    var next: Elt

    constructor (x: Elt)
      ensures elt == x && Fresh()
    {
      elt := x;
      prev := x.prev;
      next := x.next;
    }

    /** The kept neighbours are the present ones. */
    ghost predicate Fresh()
      reads this, elt
    {
      prev == elt.prev && next == elt.next
    }

    method Relink(x: Elt)
      modifies this
      ensures elt == x && Fresh()
    {
      elt := x;
      prev := x.prev;
      next := x.next;
    }

    method Safe()
      modifies this
      ensures elt == old(elt) && Fresh()
    {
      prev := elt.prev;
      next := elt.next;
    }

    /** Step forward without looking at the present element. */
    method Next()
      modifies this
      ensures prev == old(elt) && elt == old(next) && next == elt.next
    {
      prev := elt;
      elt := next;
      next := next.next;
    }

    method Prev()
      modifies this
      ensures next == old(elt) && elt == old(prev) && prev == elt.prev
    {
      next := elt;
      elt := prev;
      prev := prev.prev;
    }
  }

  // ----- traversals -----

  /** The iterator stands on node i of ring s, or on its head once i has reached the end. */
  ghost predicate Standing(it: Iterator, s: seq<Elt>, i: int)
    requires 0 <= i && |s| > 0
    reads it
  {
    it.elt == Nth(s, i) && (i < |s| ==> it.next == Nth(s, i + 1))
  }

  /** Remove x, node i of the list, if it is one of the chosen; j is where its successor then stands. */
  method Sift(x: Elt, h: Elt, chosen: set<Elt>, ghost m: Rings, ghost i: int)
    returns (ghost r: Rings, ghost j: int)
    requires Well(m) && IsList(m, h) && 1 <= i < |m[h]| && x == m[h][i]
    modifies x, x.prev, x.next
    ensures r == if x in chosen then Extracted(m, h, i) else m
    ensures j == if x in chosen then i else i + 1
    ensures Well(r) && Nodes(r) == Nodes(m) && IsList(r, h)
    ensures 1 <= j <= |r[h]| && r[h][j..] == m[h][i + 1..] && r[h][..i] == m[h][..i]
  {
    assert Anchored(h, m[h]);
    r, j := m, i + 1;
    if x in chosen {
      ExtractedNodes(m, h, i);
      var _ := x.Extract(m, h, i);
      r, j := Extracted(m, h, i), i;
    }
  }

  /** One turn of the traversal: node i is looked at, perhaps removed, and left behind. */
  method Visit(it: Iterator, h: Elt, chosen: set<Elt>, ghost m: Rings, ghost i: int)
    returns (ghost r: Rings)
    requires Well(m) && IsList(m, h) && 1 <= i < |m[h]| && Standing(it, m[h], i)
    modifies it, Nodes(m)
    ensures r == if m[h][i] in chosen then Extracted(m, h, i) else m
    ensures Well(r) && Nodes(r) == Nodes(m) && IsList(r, h)
    ensures Standing(it, r[h], if m[h][i] in chosen then i else i + 1)
  {
    hide Well;
    Links(m, h, i);
    ghost var j: int;
    r, j := Sift(it.elt, h, chosen, m, i);
    SameTail(m[h], i + 1, r[h], j);
    if j < |r[h]| {
      Links(r, h, j);
    }
    it.Next();
  }

  /** Visit list h from its first element on, removing the chosen elements as they come. */
  method ForEach(h: Elt, chosen: set<Elt>, ghost m: Rings) returns (visited: seq<Elt>)
    requires Well(m) && IsList(m, h)
    modifies Nodes(m)
    ensures visited == Contents(m, h)
    ensures Well(Sifted(m, h, Contents(m, h), [], chosen))
  {
    hide Well, Sifted, Unchosen;
    ghost var xs: seq<Elt> := m[h][1..];
    ghost var rest: seq<Elt> := xs;
    ghost var r: Rings := m;
    TraversalStart(m, h);
    SiftedStart(m, h, chosen);
    var it := new Iterator(h.next);
    visited := [];
    while it.elt != h
      invariant fresh(it)
      invariant visited + rest == xs
      invariant r == Sifted(m, h, visited, rest, chosen)
      invariant Well(r) && Nodes(r) == Nodes(m) && IsList(r, h)
      invariant |r[h]| == Cursor(visited, chosen) + |rest| && Standing(it, r[h], Cursor(visited, chosen))
      decreases |rest|
    {
      ghost var i := Cursor(visited, chosen);
      SiftedNext(m, h, xs, visited, rest, chosen);
      visited := visited + [it.elt];
      r := Visit(it, h, chosen, r, i);
      rest := rest[1..];
    }
    if rest != [] {
      SiftedNext(m, h, xs, visited, rest, chosen);
    }
    assert visited == xs;
  }

  /** The iterator stands on node i of ring s, and knows the node before it. */
  ghost predicate StandingBack(it: Iterator, s: seq<Elt>, i: int)
    requires 0 <= i < |s|
    reads it
  {
    it.elt == s[i] && (i > 0 ==> it.prev == s[i - 1])
  }

  /** One turn of a backward traversal. */
  method VisitBack(it: Iterator, h: Elt, chosen: set<Elt>, ghost m: Rings, ghost i: int)
    returns (ghost r: Rings)
    requires Well(m) && IsList(m, h) && 1 <= i < |m[h]| && StandingBack(it, m[h], i)
    modifies it, Nodes(m)
    ensures r == if m[h][i] in chosen then Extracted(m, h, i) else m
    ensures Well(r) && Nodes(r) == Nodes(m) && IsList(r, h)
    ensures i <= |r[h]| && StandingBack(it, r[h], i - 1)
  {
    hide Well;
    Links(m, h, i);
    ghost var j: int;
    r, j := Sift(it.elt, h, chosen, m, i);
    assert m[h][i - 1] == m[h][..i][i - 1] == r[h][..i][i - 1] == r[h][i - 1];
    Links(r, h, i - 1);
    it.Prev();
  }

  /** Visit list h from its last element on backwards, removing the chosen elements as they come. */
  method ForEachBack(h: Elt, chosen: set<Elt>, ghost m: Rings) returns (visited: seq<Elt>)
    requires Well(m) && IsList(m, h)
    modifies Nodes(m)
    ensures visited == Backwards(Contents(m, h))
    ensures Well(Sifted(m, h, Contents(m, h), [], chosen))
  {
    hide Well, SiftedBack, Sifted, Unchosen, Backwards;
    NothingBackwards<Elt>();
    ghost var xs: seq<Elt> := m[h][1..];
    ghost var rest: seq<Elt>, seen: seq<Elt> := xs, [];
    ghost var r: Rings := m;
    TraversalEnd(m, h);
    SiftedBackEnds(m, h, chosen);
    var it := new Iterator(h.prev);
    visited := [];
    while it.elt != h
      invariant fresh(it) && rest + seen == xs && visited == Backwards(seen)
      invariant r == SiftedBack(m, h, rest, seen, chosen)
      invariant Well(r) && Nodes(r) == Nodes(m) && IsList(r, h)
      invariant |r[h]| > |rest| && StandingBack(it, r[h], |rest|)
      decreases |rest|
    {
      ghost var i := |rest|;
      assert i > 0;
      SiftedBackNext(m, h, xs, rest, seen, chosen);
      BackwardsFront(rest[i - 1], seen);
      visited := visited + [it.elt];
      r := VisitBack(it, h, chosen, r, i);
      seen := [rest[i - 1]] + seen;
      rest := rest[..i - 1];
    }
    if rest != [] {
      SiftedBackNext(m, h, xs, rest, seen, chosen);
    }
    assert seen == xs;
  }

  lemma TraversalEnd(m: Rings, h: Elt)
    requires Well(m) && IsList(m, h)
    ensures var n := |m[h]| - 1;
      && h !in m[h][1..] && h.prev == m[h][n] && (n > 0 ==> m[h][n].prev == m[h][n - 1])
  {
    assert h !in m[h][1..] by {
      assert Ring(m[h]);
    }
    hide Ring, Anchored, Apart;
    Links(m, h, 0);
    Links(m, h, |m[h]| - 1);
  }

  lemma TraversalStart(m: Rings, h: Elt)
    requires Well(m) && IsList(m, h)
    ensures h !in m[h][1..] && h.next == Nth(m[h], 1) && (|m[h]| > 1 ==> h.next.next == Nth(m[h], 2))
  {
    assert h !in m[h][1..] by {
      assert Ring(m[h]);
    }
    hide Ring, Anchored, Apart;
    Links(m, h, 0);
    if |m[h]| > 1 {
      Links(m, h, 1);
    }
  }

  // ----- swap -----

  /** Exchange the elements two iterators stand on; each iterator ends on the other's element. */
  method Swap(a: Iterator, b: Iterator, ghost m: Rings, ghost h: Elt, ghost i: int, ghost k: Elt, ghost j: int)
    requires a != b && Well(m) && IsList(m, h) && IsList(m, k) && 1 <= i && 1 <= j
    requires At(m, h, i, a.elt) && At(m, k, j, b.elt) && a.elt != b.elt
    modifies a, b, Nodes(m)
    ensures Well(Switched(m, h, i, k, j))
    ensures a.elt == old(b.elt) && a.Fresh() && b.elt == old(a.elt) && b.Fresh()
  {
    hide Ring, Anchored, Apart;
    var eltA := a.elt;
    var eltB := b.elt;
    a.Safe();
    b.Safe();
    SwitchLinks(eltA, eltB, a.prev, a.next, b.prev, b.next, m, h, i, k, j);
    ghost var r: Rings := Switched(m, h, i, k, j);
    assert Well(r);
    a.Relink(eltB);
    assert Well(r);
    b.Relink(eltA);
  }

  /** The relinking itself: three ways, by how the two elements stand to each other. */
  method SwitchLinks(eltA: Elt, eltB: Elt, prevA: Elt, nextA: Elt, prevB: Elt, nextB: Elt,
                     ghost m: Rings, ghost h: Elt, ghost i: int, ghost k: Elt, ghost j: int)
    requires Well(m) && IsList(m, h) && IsList(m, k) && 1 <= i && 1 <= j
    requires At(m, h, i, eltA) && At(m, k, j, eltB) && eltA != eltB
    requires prevA == eltA.prev && nextA == eltA.next && prevB == eltB.prev && nextB == eltB.next
    modifies Nodes(m)
    ensures Well(Switched(m, h, i, k, j))
  {
    hide Well, Switched, Extracted, MovedAfter, MovedBefore;
    Links(m, h, i);
    Links(m, k, j);
    Standings(m, h, i, k, j);
    TakeOut(eltA, m, h, i);
    ghost var m1: Rings := Extracted(m, h, i);
    if nextA == eltB {
      // a stood right before b
      assert prevB == eltA;
      SwitchedAdjacent(m, h, i, j);
      PutBack(eltA, eltB, m1, h, i);
    } else if prevA == eltB {
      // a stood right after b
      assert nextB == eltA;
      SwitchedAdjacent(m, h, i, j);
      Links(m1, h, j);
      Links(m1, eltA, 0);
      eltA.InsertBefore(eltB, m1, h, j);
    } else {
      SwitchApart(eltA, eltB, prevA, prevB, m, h, i, k, j);
    }
  }

  /** The case of two elements that are no neighbours, once the first is out. */
  method SwitchApart(eltA: Elt, eltB: Elt, prevA: Elt, prevB: Elt, ghost m: Rings,
                     ghost h: Elt, ghost i: int, ghost k: Elt, ghost j: int)
    requires CanSwitch(m, h, i, k, j) && (h == k ==> i + 1 < j || j + 1 < i) && h.payload == null && k.payload == null
    requires m[h][0] == h && m[k][0] == k && m[h][i].payload != null && m[k][j].payload != null
    requires eltA == m[h][i] && eltB == m[k][j] && prevA == m[h][i - 1] && prevB == m[k][j - 1]
    requires Well(Extracted(m, h, i)) && Nodes(Extracted(m, h, i)) == Nodes(m)
    modifies Nodes(m)
    ensures Well(Switched(m, h, i, k, j))
  {
    hide Well, Switched, Extracted, MovedAfter, MovedBefore;
    ghost var m1: Rings, d := Extracted(m, h, i), Shift(h, i, k, j);
    SwitchedDistant(m, h, i, k, j);
    TakeOut(eltB, m1, k, d);
    ghost var m2: Rings := Extracted(m1, k, d);
    PutBack(eltA, prevB, m2, k, d - 1);
    PutBack(eltB, prevA, MovedAfter(m2, eltA, 0, k, d - 1), h, i - 1);
  }

  /** Extract, with the whole family as frame. */
  method TakeOut(x: Elt, ghost m: Rings, ghost a: Elt, ghost i: int)
    requires Well(m) && IsList(m, a) && At(m, a, i, x) && 1 <= i
    modifies Nodes(m)
    ensures Well(Extracted(m, a, i)) && Nodes(Extracted(m, a, i)) == Nodes(m)
  {
    hide Well;
    Links(m, a, i);
    ExtractedNodes(m, a, i);
    var _ := x.Extract(m, a, i);
  }

  /** Insert after, with the whole family as frame. */
  method PutBack(x: Elt, p: Elt, ghost m: Rings, ghost a: Elt, ghost j: int)
    requires Well(m) && IsLoose(m, x) && IsList(m, a) && At(m, a, j, p)
    modifies Nodes(m)
    ensures Well(MovedAfter(m, x, 0, a, j)) && Nodes(MovedAfter(m, x, 0, a, j)) == Nodes(m)
  {
    hide Well;
    Links(m, a, j);
    Links(m, x, 0);
    MovedNodes(m, x, a, j);
    x.InsertAfter(p, m, a, j);
  }

  lemma MovedNodes(m: Rings, x: Elt, a: Elt, j: int)
    requires IsLoose(m, x) && IsList(m, a) && 0 <= j < |m[a]|
    ensures Nodes(MovedAfter(m, x, 0, a, j)) == Nodes(m)
  {
    var r: Rings := MovedAfter(m, x, 0, a, j);
    forall b, y | b in m && y in m[b] ensures y in Nodes(r) {
      if b == x {
        assert r[a][j + 1] == x;
      } else if b == a {
        var k :| 0 <= k < |m[a]| && m[a][k] == y;
        assert r[a][if k <= j then k else k + 1] == y;
      } else {
        assert b in r;
      }
    }
    forall b, y | b in r && y in r[b] ensures y in Nodes(m) {
      assert x in m[x];
    }
  }

  lemma Standings(m: Rings, h: Elt, i: int, k: Elt, j: int)
    requires Well(m) && IsList(m, h) && IsList(m, k) && 1 <= i < |m[h]| && 1 <= j < |m[k]| && m[h][i] != m[k][j]
    ensures m[h][i].next == m[k][j] <==> h == k && i + 1 == j
    ensures m[h][i].prev == m[k][j] <==> h == k && j + 1 == i
    ensures h == k ==> i != j
  {
    assert Ring(m[h]) && Ring(m[k]) && Anchored(h, m[h]) && Anchored(k, m[k]);
    assert h != k ==> Disjoint(m[h], m[k]);
    assert m[h][i].next == Nth(m[h], i + 1) && m[h][i].prev == m[h][i - 1];
    assert m[k][j] in m[k] && Nth(m[h], i + 1) in m[h] && m[h][i - 1] in m[h];
  }
}
