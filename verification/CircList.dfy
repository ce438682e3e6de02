/** The intrusive circular doubly linked list. Every element, list heads included, is a node
    with two links; a node outside every list is a ring of its own.

    The abstract state is a value of type Rings: it maps the anchor of each ring (a list head,
    or a lone element) to the nodes met by following `next` from it. Well ties such a value
    to the links on the heap, and each operation says which value describes the links afterwards. */
module CircList {
  import opened RingAlgebra

  type Rings = Family<Elt>

  // ----- rings -----

  /** s lists one whole ring: `next` walks it forwards and back to s[0], `prev` backwards. */
  ghost predicate Ring(s: seq<Elt>)
    reads s
  {
    && |s| > 0 && Distinct(s)
    && (forall i {:trigger s[i].next} :: 0 <= i < |s| - 1 ==> s[i].next == s[i + 1])
    && (forall i {:trigger s[i].prev} :: 1 <= i < |s| ==> s[i].prev == s[i - 1])
    && s[|s| - 1].next == s[0] && s[0].prev == s[|s| - 1]
  }

  ghost predicate Anchored(a: Elt, s: seq<Elt>) {
    && |s| > 0 && s[0] == a
    && (a.payload != null ==> |s| == 1)
    && forall i :: 1 <= i < |s| ==> s[i].payload != null
  }

  /** The links of all the nodes of m are exactly the rings of m, and no two rings share a node. */
  ghost predicate Well(m: Rings)
    reads Nodes(m)
  {
    && (forall a | a in m :: Anchored(a, m[a]) && Ring(m[a]))
    && Apart(m)
  }

  ghost predicate IsList(m: Rings, h: Elt) {
    h in m && h.payload == null && |m[h]| > 0 && m[h][0] == h
  }

  ghost predicate IsLoose(m: Rings, x: Elt) {
    x in m && x.payload != null && m[x] == [x]
  }

  /** What the links of one node are. */
  lemma Links(m: Rings, a: Elt, i: int)
    requires Well(m) && a in m && 0 <= i < |m[a]|
    ensures var s := m[a]; var x := s[i];
      && x in Nodes(m) && x.next in Nodes(m) && x.prev in Nodes(m)
      && x.next == Nth(s, i + 1) && x.prev == s[if i > 0 then i - 1 else |s| - 1]
      && (x.next == x <==> |s| == 1) && (a.payload != null ==> |s| == 1)
      && s[0] == a && (i > 0 ==> x !in m && x.payload != null)
  {
    var s: seq<Elt> := m[a];
    assert Ring(s) && Anchored(a, s) && s[i] in s;
    assert forall b | b in m :: Anchored(b, m[b]);
  }

  lemma ExtractedNodes(m: Rings, a: Elt, i: int)
    requires Well(m) && a in m && 1 <= i < |m[a]|
    ensures Nodes(Extracted(m, a, i)) == Nodes(m)
  {
    var x: Elt, m1: Rings := m[a][i], Detach(m, a, i);
    assert Anchored(a, m[a]) && Ring(m[a]) && x in m[a];
    assert x !in m by {
      assert forall b | b in m :: Anchored(b, m[b]);
    }
    forall b, y | b in m && y in m[b] && y != x ensures y in Nodes(Extracted(m, a, i)) {
      if b == a {
        var k :| 0 <= k < |m[a]| && m[a][k] == y;
        assert m1[a][if k < i then k else k - 1] == y;
      }
      assert b in Extracted(m, a, i);
    }
    assert x in Extracted(m, a, i)[x];
  }

  // ----- what a few link writes do to a ring -----

  lemma Closes(r: seq<Elt>)
    requires |r| > 0 && Distinct(r)
    requires forall k | 0 <= k < |r| :: r[k].next == Nth(r, k + 1) && Nth(r, k + 1).prev == r[k]
    ensures Ring(r)
  {
    forall i {:trigger r[i].prev} | 1 <= i < |r| ensures r[i].prev == r[i - 1] {
      assert r[i - 1].next == Nth(r, i);
    }
    assert r[|r| - 1].next == Nth(r, |r|);
  }

  twostate lemma Inserted(s: seq<Elt>, new j: int, new x: Elt)
    requires old(Ring(s)) && 0 <= j < |s| && x !in s
    requires x.prev == s[j] && x.next == old(s[j].next)
    requires forall y | y in s :: y.next == if y == s[j] then x else old(y.next)
    requires forall y | y in s :: y.prev == if y == x.next then x else old(y.prev)
    ensures Ring(s[..j + 1] + [x] + s[j + 1..])
  {
    var r: seq<Elt> := s[..j + 1] + [x] + s[j + 1..];
    assert [x, x][1..] == [x];
    assert Distinct(r) && x.next == Nth(s, j + 1) && x.next in s;
    forall k | 0 <= k < |r| ensures r[k].next == Nth(r, k + 1) && Nth(r, k + 1).prev == r[k] {
      SpliceNext(s, j, [x, x], k);
    }
    Closes(r);
  }

  twostate lemma Removed(s: seq<Elt>, new i: int)
    requires old(Ring(s)) && 1 <= i < |s|
    requires forall y | y in s && y != s[i] :: y.next == if y == old(s[i].prev) then old(s[i].next) else old(y.next)
    requires forall y | y in s && y != s[i] :: y.prev == if y == old(s[i].next) then old(s[i].prev) else old(y.prev)
    ensures Ring(s[..i] + s[i + 1..])
  {
    var r: seq<Elt> := s[..i] + s[i + 1..];
    assert forall k | 0 <= k < |r| :: r[k] == s[if k < i then k else k + 1];
    assert Distinct(r);
    assert old(s[i].next) == Nth(s, i + 1) && old(s[i].prev) == s[i - 1];
    forall k | 0 <= k < |r| ensures r[k].next == Nth(r, k + 1) && Nth(r, k + 1).prev == r[k] {
    }
    Closes(r);
  }

  twostate lemma Substituted(s: seq<Elt>, new i: int, new x: Elt)
    requires old(Ring(s)) && 0 <= i < |s| && |s| > 1 && x !in s
    requires x.prev == old(s[i].prev) && x.next == old(s[i].next)
    requires forall y | y in s && y != s[i] :: y.next == if y == x.prev then x else old(y.next)
    requires forall y | y in s && y != s[i] :: y.prev == if y == x.next then x else old(y.prev)
    ensures Ring(s[i := x])
  {
    var r: seq<Elt> := s[i := x];
    assert Distinct(r);
    assert x.next == Nth(s, i + 1) && x.prev == s[if i > 0 then i - 1 else |s| - 1];
    forall k | 0 <= k < |r| ensures r[k].next == Nth(r, k + 1) && Nth(r, k + 1).prev == r[k] {
    }
    Closes(r);
  }

  /** The nodes of ring m[list] but its head are linked in after node j of ring m[a]. */
  twostate lemma Spliced(m: Rings, new a: Elt, new j: int, new list: Elt)
    requires a in m && list in m && 0 <= j < |m[a]| && |m[list]| > 1 && Disjoint(m[a], m[list])
    requires old(Ring(m[a])) && old(Ring(m[list]))
    requires forall k {:trigger m[a][k].next} :: 0 <= k < |m[a]| ==>
      m[a][k].next == if k == j then m[list][1] else old(m[a][k].next)
    requires forall k {:trigger m[a][k].prev} :: 0 <= k < |m[a]| ==>
      m[a][k].prev == if m[a][k] == Nth(m[a], j + 1) then m[list][|m[list]| - 1] else old(m[a][k].prev)
    requires forall k {:trigger m[list][k].next} :: 1 <= k < |m[list]| ==>
      m[list][k].next == if k == |m[list]| - 1 then Nth(m[a], j + 1) else old(m[list][k].next)
    requires forall k {:trigger m[list][k].prev} :: 1 <= k < |m[list]| ==>
      m[list][k].prev == if k == 1 then m[a][j] else old(m[list][k].prev)
    ensures Ring(m[a][..j + 1] + m[list][1..] + m[a][j + 1..])
  {
    var s: seq<Elt>, t: seq<Elt> := m[a], m[list];
    var r: seq<Elt> := s[..j + 1] + t[1..] + s[j + 1..];
    SplicePlaces(s, j, t);
    SpliceDistinct(s, j, t);
    hide Disjoint;
    forall k | 0 <= k < |r| ensures r[k].next == Nth(r, k + 1) && Nth(r, k + 1).prev == r[k] {
      SpliceNext(s, j, t, k);
    }
    Closes(r);
  }

  /** Ring s is cut after node i; its nodes 1 to i go to the head h. */
  twostate lemma Cut(s: seq<Elt>, new i: int, new h: Elt)
    requires old(Ring(s)) && 1 <= i < |s| && h !in s
    requires h.next == s[1] && h.prev == s[i]
    requires forall y | y in s :: y.next == if y == s[i] then h else if y == s[0] then old(s[i].next) else old(y.next)
    requires forall y | y in s :: y.prev == if y == s[1] then h else if y == old(s[i].next) then s[0] else old(y.prev)
    ensures Ring([h] + s[1..i + 1]) && Ring([s[0]] + s[i + 1..])
  {
    CutFront(s, i, h);
    CutBack(s, i, h);
  }

  twostate lemma CutFront(s: seq<Elt>, new i: int, new h: Elt)
    requires old(Ring(s)) && 1 <= i < |s| && h !in s
    requires h.next == s[1] && h.prev == s[i]
    requires forall y | y in s :: y.next == if y == s[i] then h else if y == s[0] then old(s[i].next) else old(y.next)
    requires forall y | y in s :: y.prev == if y == s[1] then h else if y == old(s[i].next) then s[0] else old(y.prev)
    ensures Ring([h] + s[1..i + 1])
  {
    var r: seq<Elt> := [h] + s[1..i + 1];
    assert forall k | 1 <= k < |r| :: r[k] == s[k];
    assert Distinct(r);
    assert old(s[i].next) == Nth(s, i + 1);
    forall k | 0 <= k < |r| ensures r[k].next == Nth(r, k + 1) && Nth(r, k + 1).prev == r[k] {
    }
    Closes(r);
  }

  twostate lemma CutBack(s: seq<Elt>, new i: int, new h: Elt)
    requires old(Ring(s)) && 1 <= i < |s| && h !in s
    requires forall y | y in s :: y.next == if y == s[i] then h else if y == s[0] then old(s[i].next) else old(y.next)
    requires forall y | y in s :: y.prev == if y == s[1] then h else if y == old(s[i].next) then s[0] else old(y.prev)
    ensures Ring([s[0]] + s[i + 1..])
  {
    var r: seq<Elt> := [s[0]] + s[i + 1..];
    assert forall k | 1 <= k < |r| :: r[k] == s[i + k];
    assert Distinct(r);
    assert old(s[i].next) == Nth(s, i + 1);
    forall k | 0 <= k < |r| ensures r[k].next == Nth(r, k + 1) && Nth(r, k + 1).prev == r[k] {
    }
    Closes(r);
  }

  // ----- and to a family of rings -----

  twostate lemma Kept(m: Rings)
    requires old(Well(m))
    requires forall b, x | b in m && x in m[b] :: x.next == old(x.next) && x.prev == old(x.prev)
    ensures Well(m)
  {
    forall b | b in m ensures Ring(m[b]) {
      assert old(Ring(m[b]));
    }
  }

  /** The rings other than a and x stand as they are when only nodes of those two were written. */
  twostate lemma RestKept(m: Rings, new a: Elt, new x: Elt)
    requires old(Well(m)) && a in m && x in m && a != x
    requires forall b, y | b in m && y in m[b] && y !in m[a] && y !in m[x] ::
      y.next == old(y.next) && y.prev == old(y.prev)
    ensures Well(m - {x} - {a})
    ensures forall y | y in m[a] || y in m[x] :: Untracked(m - {x} - {a}, y)
  {
    var m2: Rings := m - {x} - {a};
    assert old(Well(m2));
    hide Ring, Anchored;
    forall b, y | b in m2 && y in m2[b] ensures y.next == old(y.next) && y.prev == old(y.prev) {
      assert Disjoint(m[a], m[b]) && Disjoint(m[x], m[b]);
    }
    forall b, y | b in m2 && (y in m[a] || y in m[x]) ensures y !in m2[b] {
      assert Disjoint(m[a], m[b]) && Disjoint(m[x], m[b]);
    }
    Kept(m2);
  }

  /** Only ring a changed, to t; t may only take in nodes that belonged to no ring. */
  twostate lemma Replaced(m: Rings, new a: Elt, new t: seq<Elt>)
    requires old(Well(m))
    requires Anchored(a, t) && Ring(t)
    requires forall x | x in t :: (a in m && x in m[a]) || Untracked(m, x)
    requires forall b, x | b in m && b != a && x in m[b] :: x.next == old(x.next) && x.prev == old(x.prev)
    ensures Well(m[a := t])
  {
    StillApart(m, a, t);
    forall b | b in m && b != a ensures Ring(m[b]) {
      assert old(Ring(m[b]));
    }
  }

  lemma SpliceAnchored(a: Elt, s: seq<Elt>, j: int, t: seq<Elt>)
    requires Anchored(a, s) && a.payload == null && |t| > 0 && (forall k :: 1 <= k < |t| ==> t[k].payload != null)
    requires 0 <= j < |s|
    ensures Anchored(a, s[..j + 1] + t[1..] + s[j + 1..])
  {
    SplicePlaces(s, j, t);
  }

  /** Links written in ring a only leave the others as they were. */
  twostate lemma OnlyRing(m: Rings, new a: Elt)
    requires Apart(m) && a in m
    requires forall b, y | b in m && y in m[b] && y !in m[a] :: y.next == old(y.next) && y.prev == old(y.prev)
    ensures forall b, y | b in m && b != a && y in m[b] :: y.next == old(y.next) && y.prev == old(y.prev)
  {
    forall b, y | b in m && b != a && y in m[b] ensures y.next == old(y.next) && y.prev == old(y.prev) {
      assert Disjoint(m[a], m[b]);
    }
  }

  twostate lemma Attached(m: Rings, new a: Elt, new j: int, new x: Elt)
    requires old(Well(m)) && IsList(m, a) && 0 <= j < |m[a]| && Untracked(m, x) && x.payload != null
    requires x.prev == m[a][j] && x.next == old(m[a][j].next)
    requires forall b, y | b in m && y in m[b] :: y.next == if y == m[a][j] then x else old(y.next)
    requires forall b, y | b in m && y in m[b] :: y.prev == if y == x.next then x else old(y.prev)
    ensures Well(Attach(m, a, j + 1, x))
  {
    var s: seq<Elt> := m[a];
    var t: seq<Elt> := s[..j + 1] + [x] + s[j + 1..];
    AttachedRing(m, a, j, x);
    hide Ring, Anchored;
    assert forall y | y in t :: y in s || y == x;
    OnlyRing(m, a);
    Replaced(m, a, t);
  }

  twostate lemma AttachedRing(m: Rings, new a: Elt, new j: int, new x: Elt)
    requires old(Well(m)) && IsList(m, a) && 0 <= j < |m[a]| && x !in m[a] && x.payload != null
    requires x.prev == m[a][j] && x.next == old(m[a][j].next)
    requires forall y | y in m[a] :: y.next == if y == m[a][j] then x else old(y.next)
    requires forall y | y in m[a] :: y.prev == if y == x.next then x else old(y.prev)
    ensures var s := m[a];
      Ring(s[..j + 1] + [x] + s[j + 1..]) && Anchored(a, s[..j + 1] + [x] + s[j + 1..]) && x.prev in s && x.next in s
  {
    var s: seq<Elt> := m[a];
    assert old(Ring(s)) && Anchored(a, s) && [a, x][1..] == [x];
    Inserted(s, j, x);
    SpliceAnchored(a, s, j, [a, x]);
    assert x.next == Nth(s, j + 1);
  }

  lemma LinkPlaces(m: Rings, a: Elt, i: int)
    requires Well(m) && a in m && 1 <= i < |m[a]|
    ensures var s := m[a]; var x := s[i];
      && x in s && x.prev in s && x.next in s && x.prev == s[i - 1] != x && x.next == Nth(s, i + 1) != x
  {
    assert Ring(m[a]);
  }

  /** x, tracked by no ring, took over the links of node i of ring a. */
  twostate lemma SubstitutedWell(m: Rings, new a: Elt, new i: int, new x: Elt)
    requires old(Well(m)) && a in m && 1 <= i < |m[a]| && Untracked(m, x) && x.payload != null
    requires x.prev == old(m[a][i].prev) && x.next == old(m[a][i].next)
    requires forall b, y | b in m && y in m[b] && y != m[a][i] :: y.next == if y == x.prev then x else old(y.next)
    requires forall b, y | b in m && y in m[b] && y != m[a][i] :: y.prev == if y == x.next then x else old(y.prev)
    ensures Well(m[a := m[a][i := x]])
  {
    var s: seq<Elt> := m[a];
    var t: seq<Elt> := s[i := x];
    assert old(Ring(s)) && Anchored(a, s);
    assert x.prev == s[i - 1] && x.next == if i == |s| - 1 then s[0] else s[i + 1];
    Substituted(s, i, x);
    assert Anchored(a, t);
    forall y | y in t ensures y in m[a] || Untracked(m, y) {
    }
    OnlyRing(m, a);
    Replaced(m, a, t);
  }

  /** Ring m[list], but for its head, went into ring a after node j; the old head is tracked no more. */
  twostate lemma SplicedWell(m: Rings, new a: Elt, new j: int, new list: Elt)
    requires old(Well(m)) && IsList(m, a) && IsList(m, list) && a != list && 0 <= j < |m[a]| && |m[list]| > 1
    requires m[a][j].next == m[list][1] && m[list][1].prev == m[a][j]
    requires var next := old(m[a][j].next); var last := m[list][|m[list]| - 1];
      && next.prev == last && last.next == next
      && (forall b, y | b in m && y in m[b] && y != m[a][j] && y != last :: y.next == old(y.next))
      && (forall b, y | b in m && y in m[b] && y != m[list][1] && y != next :: y.prev == old(y.prev))
    ensures Well((m - {list})[a := m[a][..j + 1] + Contents(m, list) + m[a][j + 1..]])
  {
    var s: seq<Elt>, t: seq<Elt> := m[a], m[list];
    var r: seq<Elt>, m2: Rings := s[..j + 1] + t[1..] + s[j + 1..], m - {list} - {a};
    SplicedRing(m, a, j, list);
    hide Ring, Anchored, Disjoint;
    RestKept(m, a, list);
    assert forall y | y in r :: y in s || y in t;
    assert m2[a := r] == (m - {list})[a := r];
    hide Apart;
    Added(m2, a, r);
  }

  twostate lemma SplicedRing(m: Rings, new a: Elt, new j: int, new list: Elt)
    requires old(Well(m)) && IsList(m, a) && IsList(m, list) && a != list && 0 <= j < |m[a]| && |m[list]| > 1
    requires m[a][j].next == m[list][1] && m[list][1].prev == m[a][j]
    requires var next := old(m[a][j].next); var last := m[list][|m[list]| - 1];
      && next.prev == last && last.next == next
      && (forall b, y | b in m && y in m[b] && y != m[a][j] && y != last :: y.next == old(y.next))
      && (forall b, y | b in m && y in m[b] && y != m[list][1] && y != next :: y.prev == old(y.prev))
    ensures var r := m[a][..j + 1] + m[list][1..] + m[a][j + 1..]; Ring(r) && Anchored(a, r)
    ensures m[a][j] in m[a] && old(m[a][j].next) in m[a] && forall k | 0 <= k < |m[list]| :: m[list][k] in m[list]
  {
    var s: seq<Elt>, t: seq<Elt> := m[a], m[list];
    assert old(Ring(s)) && old(Ring(t)) && Anchored(a, s) && Anchored(list, t) && Disjoint(s, t);
    assert forall k :: 0 <= k < |t| ==> t[k] in t && t[k] !in s;
    assert forall k :: 0 <= k < |s| ==> s[k] in s && s[k] !in t;
    assert old(s[j].next) == Nth(s, j + 1);
    SpliceAnchored(a, s, j, t);
    Spliced(m, a, j, list);
  }

  lemma Added(m: Rings, a: Elt, t: seq<Elt>)
    requires Well(m) && a !in m
    requires Anchored(a, t) && Ring(t)
    requires forall x | x in t :: Untracked(m, x)
    ensures Well(m[a := t])
  {
  }

  lemma AddedLoose(m: Rings, x: Elt)
    requires Well(m) && Untracked(m, x) && x.next == x && x.prev == x
    ensures Well(Loose(m, x))
  {
    assert forall b | b in m :: Anchored(b, m[b]);
    Added(m, x, [x]);
  }

  lemma Dropped(m: Rings, a: Elt)
    requires Well(m)
    ensures Well(m - {a})
    ensures a in m ==> forall x | x in m[a] :: Untracked(m - {a}, x)
  {
  }

  lemma DetachedNode(m: Rings, a: Elt, i: int)
    requires Well(m) && a in m && 0 <= i < |m[a]| && (i == 0 ==> |m[a]| == 1)
    ensures Untracked(Detach(m, a, i), m[a][i])
    ensures Nodes(Detach(m, a, i)) == Nodes(m) - {m[a][i]}
  {
    var m1: Rings := Detach(m, a, i);
    var x := m[a][i];
    assert Ring(m[a]);
    forall b | b in m1 ensures x !in m1[b] {
    }
    forall b, y | b in m && y in m[b] && y != x ensures y in Nodes(m1) {
      if b == a && i > 0 {
        var k :| 0 <= k < |m[a]| && m[a][k] == y;
        assert m1[a][if k < i then k else k - 1] == y;
      } else {
        assert b in m1;
      }
    }
  }

  // ----- results of the composed operations -----

  ghost predicate CanMove(m: Rings, a: Elt, i: int, x: Elt, b: Elt, j: int, y: Elt) {
    At(m, a, i, x) && x.payload != null && IsList(m, b) && At(m, b, j, y) && x != y
  }

  lemma Shifted(m: Rings, a: Elt, i: int, x: Elt, b: Elt, j: int, y: Elt)
    requires Well(m) && CanMove(m, a, i, x, b, j, y)
    ensures i == 0 ==> a == x != b && m[a] == [x]
    ensures a != b || i != j
    ensures var m1 := Detach(m, a, i);
      IsList(m1, b) && At(m1, b, Shift(a, i, b, j), y) && Untracked(m1, x)
  {
    assert Anchored(a, m[a]);
    DetachedNode(m, a, i);
  }

  /** x has taken over the links of element i of ring a, which is now on its own. */
  twostate lemma ExchangedWell(m: Rings, new a: Elt, new i: int, new x: Elt)
    requires old(Well(m)) && a in m && 1 <= i < |m[a]| && x in m && m[x] == [x] && x != a && x.payload != null
    requires x.prev == old(m[a][i].prev) && x.next == old(m[a][i].next)
    requires m[a][i].next == m[a][i] && m[a][i].prev == m[a][i]
    requires forall b, y | b in m && y in m[b] && y != m[a][i] && y != x ::
      y.next == if y == x.prev then x else old(y.next)
    requires forall b, y | b in m && y in m[b] && y != m[a][i] && y != x ::
      y.prev == if y == x.next then x else old(y.prev)
    ensures Well(Exchanged(m, a, i, x))
  {
    var m1: Rings, e: Elt, t: seq<Elt> := m - {x}, m[a][i], m[a][i := x];
    var m2: Rings := m1[a := t];
    Alone(m, x);
    assert old(Well(m1)) && e.payload != null by {
      assert Anchored(a, m[a]);
    }
    assert Distinct(m[a]) && e in m[a] && a !in m[x] by {
      assert old(Ring(m[a])) && Disjoint(m[a], m[x]);
    }
    hide Ring, Anchored, Distinct;
    SubstitutedWell(m1, a, i, x);
    SubstitutedNode(m1, a, i, x);
    hide Apart;
    AddedLoose(m2, e);
  }

  /** The head x has taken over the links of the head a, which is now empty. */
  twostate lemma HeadReplacedWell(m: Rings, new a: Elt, new x: Elt)
    requires old(Well(m)) && IsList(m, a) && |m[a]| > 1 && IsList(m, x) && m[x] == [x] && x != a
    requires x.prev == old(a.prev) && x.next == old(a.next) && a.next == a && a.prev == a
    requires forall b, y | b in m && y in m[b] && y != a && y != x :: y.next == if y == x.prev then x else old(y.next)
    requires forall b, y | b in m && y in m[b] && y != a && y != x :: y.prev == if y == x.next then x else old(y.prev)
    ensures Well(ReplacedBy(m, a, 0, x))
  {
    var s: seq<Elt>, m2: Rings := m[a], m - {x} - {a};
    assert Ring(s[0 := x]) && Anchored(x, s[0 := x]) && x.next in s && x.prev in s && a in s && x in m[x] by {
      assert old(Ring(s)) && Anchored(a, s) && Disjoint(s, m[x]);
      Substituted(s, 0, x);
    }
    assert Ring([a]) && Anchored(a, [a]);
    hide Ring, Anchored;
    RestKept(m, a, x);
    HeadReplacedIs(m, a, x);
    hide Apart, ReplacedBy;
    Added(m2, a, [a]);
    Added(m2[a := [a]], x, s[0 := x]);
  }

  twostate lemma TruncatedWell(m: Rings, new h: Elt, new i: int, new n: Elt)
    requires old(Well(m)) && IsList(m, h) && 1 <= i < |m[h]| && IsList(m, n) && m[n] == [n] && n != h
    requires n.next == m[h][1] && n.prev == m[h][i]
    requires m[h][i].next == n && h.next == old(m[h][i].next)
    requires m[h][1].prev == n && h.next.prev == h
    requires forall b, y | b in m && y in m[b] && y != n && y != m[h][i] && y != h :: y.next == old(y.next)
    requires forall b, y | b in m && y in m[b] && y != n && y != m[h][1] && y != h.next :: y.prev == old(y.prev)
    ensures Well(Truncated(m, h, i, n))
  {
    var s: seq<Elt>, m2: Rings := m[h], m - {n} - {h};
    assert old(Ring(s)) && Anchored(h, s) && Disjoint(s, m[n]) && n in m[n] && h in s;
    Cut(s, i, n);
    assert h.next == Nth(s, i + 1) && h.next in s && s[1] in s && s[i] in s;
    RestKept(m, h, n);
    TruncatedIs(m, h, i, n);
    assert Distinct(s);
    hide Ring, Apart, Truncated;
    AddedHalves(m2, s, i, n);
  }

  lemma AddedHalves(m: Rings, s: seq<Elt>, i: int, n: Elt)
    requires Well(m) && Distinct(s) && n !in s && 1 <= i < |s| && Anchored(s[0], s)
    requires s[0] !in m && n !in m && n.payload == null && s[0].payload == null
    requires Untracked(m, n) && forall y | y in s :: Untracked(m, y)
    requires Ring([n] + s[1..i + 1]) && Ring([s[0]] + s[i + 1..])
    ensures Well(m[n := [n] + s[1..i + 1]][s[0] := [s[0]] + s[i + 1..]])
  {
    var t: seq<Elt>, u: seq<Elt> := [n] + s[1..i + 1], [s[0]] + s[i + 1..];
    Added(m, n, t);
    forall x | x in u ensures Untracked(m[n := t], x) {
      assert x in s;
      var k :| 0 <= k < |s| && s[k] == x;
      assert k == 0 || k > i;
    }
    Added(m[n := t], s[0], u);
  }

  class Elt {
    var next: Elt
    var prev: Elt
    const payload: object?  // null for a list head, the owner of the element otherwise

    constructor (listEltOf: object?)
      ensures payload == listEltOf
      ensures Ring([this])
    {
      payload := listEltOf;
      next := this;
      prev := this;
    }

    method Init()
      modifies this
      ensures next == this && prev == this
    {
      next := this;
      prev := this;
    }

    /** Whether this, a head or an element, is alone: the list is empty, or the element is in none. */
    method Empty(ghost m: Rings, ghost a: Elt, ghost i: int) returns (b: bool)
      requires Well(m) && At(m, a, i, this)
      ensures b <==> |m[a]| == 1
    {
      Links(m, a, i);
      b := next == this;
    }

    /** Link this between two consecutive nodes. */
    method Insert(prev: Elt, next: Elt, ghost m: Rings, ghost a: Elt, ghost j: int)
      requires Well(m) && Untracked(m, this) && payload != null
      requires IsList(m, a) && At(m, a, j, prev) && next == prev.next
      modifies this, prev, next
      ensures Well(Attach(m, a, j + 1, this))
    {
      assert Ring(m[a]) && Anchored(a, m[a]);
      next.prev := this;
      this.next := next;
      this.prev := prev;
      prev.next := this;
      Attached(m, a, j, this);
    }

    /** Make the neighbours of a node point to each other. */
    static method Link(prev: Elt, next: Elt, ghost m: Rings, ghost a: Elt, ghost i: int)
      requires Well(m) && a in m && 1 <= i < |m[a]| && prev == m[a][i].prev && next == m[a][i].next
      modifies prev, next
      ensures Well(Detach(m, a, i))
      ensures prev != m[a][i] && next != m[a][i]
      ensures prev.next == next && next.prev == prev
      ensures prev != next ==> prev.prev == old(prev.prev) && next.next == old(next.next)
    {
      LinkPlaces(m, a, i);
      next.prev := prev;
      prev.next := next;
      ghost var t: seq<Elt> := Detach(m, a, i)[a];
      assert Ring(t) && Anchored(a, t) by {
        assert old(Ring(m[a])) && Anchored(a, m[a]);
        Removed(m[a], i);
      }
      hide Ring, Anchored;
      Replaced(m, a, Detach(m, a, i)[a]);
    }

    static method Concat(list: Elt, prev: Elt, next: Elt, ghost m: Rings, ghost a: Elt, ghost j: int)
      requires Well(m) && IsList(m, list) && |m[list]| > 1
      requires IsList(m, a) && At(m, a, j, prev) && next == prev.next && a != list
      modifies list.next, list.prev, prev, next
      ensures Well((m - {list})[a := m[a][..j + 1] + Contents(m, list) + m[a][j + 1..]])
    {
      assert Ring(m[a]) && Ring(m[list]);
      assert prev in m[a] && next in m[a] && forall k :: 1 <= k < |m[list]| ==> m[list][k] in m[list][1..];
      var first := list.next;
      var last := list.prev;
      assert first == m[list][1] && last == m[list][|m[list]| - 1];
      first.prev := prev;
      prev.next := first;
      last.next := next;
      next.prev := last;
      SplicedWell(m, a, j, list);
    }

    method InsertAfter(elt: Elt, ghost m: Rings, ghost a: Elt, ghost j: int)
      requires Well(m) && IsLoose(m, this) && IsList(m, a) && At(m, a, j, elt)
      modifies this, elt, elt.next
      ensures Well(MovedAfter(m, this, 0, a, j))
    {
      hide Ring, Anchored, Apart;
      Dropped(m, this);
      Insert(elt, elt.next, m - {this}, a, j);
    }

    method InsertBefore(elt: Elt, ghost m: Rings, ghost a: Elt, ghost j: int)
      requires Well(m) && IsLoose(m, this) && IsList(m, a) && At(m, a, j, elt)
      modifies this, elt, elt.prev
      ensures Well(MovedBefore(m, this, 0, a, j))
    {
      hide Ring, Anchored, Apart;
      Dropped(m, this);
      Links(m, a, j);
      Links(m, a, Before(m, a, j) - 1);
      Insert(elt.prev, elt, m - {this}, a, Before(m, a, j) - 1);
    }

    method Extract(ghost m: Rings, ghost a: Elt, ghost i: int) returns (p: object?)
      requires Well(m) && At(m, a, i, this) && payload != null
      modifies this, prev, next
      ensures p == payload
      ensures Well(Extracted(m, a, i))
      ensures i > 0 ==> next == prev == this
    {
      hide Ring, Anchored, Apart;
      Links(m, a, i);
      DetachedNode(m, a, i);
      if next != this {
        Link(prev, next, m, a, i);
        Init();
        AddedLoose(Detach(m, a, i), this);
      } else {
        assert m[a] == [this] && Extracted(m, a, i) == m;
      }
      p := payload;
    }

    /** This, loose, takes the place of elt, which ends up loose. */
    method Replace(elt: Elt, ghost m: Rings, ghost a: Elt, ghost i: int)
      requires Well(m) && IsLoose(m, this) && At(m, a, i, elt) && elt.payload != null
      modifies this, elt, elt.next, elt.prev
      ensures Well(Exchanged(m, a, i, this))
    {
      assert Ring(m[a]) && Anchored(a, m[a]) && Ring(m[this]);
      Dropped(m, this);
      this.next := elt.next;
      this.next.prev := this;
      this.prev := elt.prev;
      this.prev.next := this;
      elt.Init();
      if i > 0 {
        ExchangedWell(m, a, i, this);
      } else {
        Kept(m);
      }
    }

    /** The first half of a move: this leaves its ring, its own links left as they are. */
    method Unlink(ghost m: Rings, ghost a: Elt, ghost i: int, ghost b: Elt, ghost j: int, ghost target: Elt)
      requires Well(m) && CanMove(m, a, i, this, b, j, target)
      modifies prev, next
      ensures Well(Detach(m, a, i)) && Untracked(Detach(m, a, i), this)
      ensures IsList(Detach(m, a, i), b) && At(Detach(m, a, i), b, Shift(a, i, b, j), target)
      ensures target.next == old(target.next) || target.next == old(next)
      ensures target.prev == old(target.prev) || target.prev == old(prev)
    {
      hide Ring, Anchored, Apart;
      Links(m, a, i);
      Shifted(m, a, i, this, b, j, target);
      if next != this {
        Link(prev, next, m, a, i);
      } else {
        Dropped(m, a);
      }
    }

    method MoveElt(target: Elt, ghost m: Rings, ghost a: Elt, ghost i: int, ghost b: Elt, ghost j: int)
      requires Well(m) && CanMove(m, a, i, this, b, j, target)
      modifies this, prev, next, target, target.next
      ensures Well(MovedAfter(m, a, i, b, j))
    {
      hide Ring, Anchored, Apart;
      Unlink(m, a, i, b, j, target);
      Insert(target, target.next, Detach(m, a, i), b, Shift(a, i, b, j));
    }

    method MoveEltTail(target: Elt, ghost m: Rings, ghost a: Elt, ghost i: int, ghost b: Elt, ghost j: int)
      requires Well(m) && CanMove(m, a, i, this, b, j, target)
      modifies this, prev, next, target, target.prev
      ensures Well(MovedBefore(m, a, i, b, j))
    {
      hide Ring, Anchored, Apart;
      Unlink(m, a, i, b, j, target);
      ghost var m1: Rings := Detach(m, a, i);
      Links(m1, b, Shift(a, i, b, j));
      Links(m1, b, Before(m1, b, Shift(a, i, b, j)) - 1);
      Insert(target.prev, target, m1, b, Before(m1, b, Shift(a, i, b, j)) - 1);
    }

    method RotateLeft(ghost m: Rings)
      requires Well(m) && IsList(m, this)
      modifies Nodes(m)
      ensures Well(WithList(m, this, Rotated(Contents(m, this))))
    {
      hide Ring, Anchored, Apart;
      Links(m, this, 0);
      if next != this {
        var first := next;
        Links(m, this, 1);
        first.MoveEltTail(this, m, this, 1, this, 0);
        RotationIsMove(m, this);
      } else {
        assert m[this] == [this] + Rotated(Contents(m, this));
        assert m == WithList(m, this, Rotated(Contents(m, this)));
      }
    }

    method ReplaceBy(newElt: Elt, ghost m: Rings, ghost a: Elt, ghost i: int)
      requires Well(m) && At(m, a, i, this) && newElt in m && m[newElt] == [newElt] && newElt != this
      requires payload == newElt.payload
      modifies this, newElt, next, prev
      ensures Well(ReplacedBy(m, a, i, newElt))
    {
      assert Ring(m[a]) && Anchored(a, m[a]) && Ring(m[newElt]);
      if next == this {
        return;
      }
      newElt.next := this.next;
      newElt.next.prev := newElt;
      newElt.prev := this.prev;
      newElt.prev.next := newElt;
      this.Init();
      if i > 0 {
        ExchangedWell(m, a, i, newElt);
      } else {
        HeadReplacedWell(m, a, newElt);
      }
    }

    // ----- list heads -----

    method Front(ghost m: Rings) returns (p: object?)
      requires Well(m) && IsList(m, this)
      ensures p == if Contents(m, this) == [] then null else Contents(m, this)[0].payload
    {
      Links(m, this, 0);
      if next != this {
        p := next.payload;
      } else {
        p := null;
      }
    }

    method Back(ghost m: Rings) returns (p: object?)
      requires Well(m) && IsList(m, this)
      ensures var xs := Contents(m, this); p == if xs == [] then null else xs[|xs| - 1].payload
    {
      Links(m, this, 0);
      if next != this {
        p := prev.payload;
      } else {
        p := null;
      }
    }

    method IsSingular(ghost m: Rings) returns (b: bool)
      requires Well(m) && IsList(m, this)
      ensures b <==> |Contents(m, this)| == 1
    {
      assert Ring(m[this]) && Anchored(this, m[this]);
      b := next != this && next == prev;
    }

    method Push(newElt: Elt, ghost m: Rings)
      requires Well(m) && IsList(m, this) && IsLoose(m, newElt)
      modifies this, next, newElt
      ensures Well(WithList(m - {newElt}, this, [newElt] + Contents(m, this)))
    {
      hide Ring, Anchored, Apart;
      Dropped(m, newElt);
      newElt.Insert(this, next, m - {newElt}, this, 0);
      assert [this] + ([newElt] + Contents(m, this)) == m[this][..1] + [newElt] + m[this][1..];
    }

    method PushBack(newElt: Elt, ghost m: Rings)
      requires Well(m) && IsList(m, this) && IsLoose(m, newElt)
      modifies this, prev, newElt
      ensures Well(WithList(m - {newElt}, this, Contents(m, this) + [newElt]))
    {
      hide Ring, Anchored, Apart;
      Dropped(m, newElt);
      Links(m, this, 0);
      Links(m, this, |m[this]| - 1);
      ghost var n := |m[this]|;
      newElt.Insert(prev, this, m - {newElt}, this, n - 1);
      assert [this] + (Contents(m, this) + [newElt]) == m[this][..n] + [newElt] + m[this][n..];
    }

    method Pop(ghost m: Rings) returns (e: Elt?)
      requires Well(m) && IsList(m, this)
      modifies this, next, next.next
      ensures Contents(m, this) == [] ==> e == null && Well(m)
      ensures var xs := Contents(m, this);
        xs != [] ==> e == xs[0] && Well(Loose(WithList(m, this, xs[1..]), xs[0]))
    {
      hide Ring, Anchored, Apart;
      Links(m, this, 0);
      if next != this {
        var first := next;
        Links(m, this, 1);
        DetachedNode(m, this, 1);
        Link(this, first.next, m, this, 1);
        first.Init();
        AddedLoose(Detach(m, this, 1), first);
        assert m[this][..1] + m[this][2..] == [this] + Contents(m, this)[1..];
        e := first;
      } else {
        e := null;
      }
    }

    method PopBack(ghost m: Rings) returns (e: Elt?)
      requires Well(m) && IsList(m, this)
      modifies this, prev, prev.prev
      ensures Contents(m, this) == [] ==> e == null && Well(m)
      ensures var xs := Contents(m, this); var n := |xs| - 1;
        xs != [] ==> e == xs[n] && Well(Loose(WithList(m, this, xs[..n]), xs[n]))
    {
      hide Ring, Anchored, Apart;
      Links(m, this, 0);
      if next != this {
        var last := prev;
        ghost var n := |m[this]| - 1;
        Links(m, this, n);
        DetachedNode(m, this, n);
        DetachedLast(m, this);
        Link(last.prev, this, m, this, n);
        last.Init();
        AddedLoose(Detach(m, this, n), last);
        e := last;
      } else {
        e := null;
      }
    }

    /** Cut this list after entry; the first part goes to the empty head list. */
    method Truncate(entry: Elt, list: Elt, ghost m: Rings, ghost i: int)
      requires Well(m) && IsList(m, this) && IsList(m, list) && m[list] == [list] && list != this
      requires entry.payload != null
      requires At(m, this, i, entry) || (|m[this]| <= 2 && entry !in m[this])
      modifies this, list, next, entry, entry.next
      ensures At(m, this, i, entry) ==> i > 0 && Well(Truncated(m, this, i, list))
      ensures entry !in m[this] ==> Well(m)
    {
      assert Ring(m[this]) && Anchored(this, m[this]) && Ring(m[list]);
      if next == this {
        return;
      }
      if next == prev && next != entry && this != entry {
        return;
      }
      if entry == this {
        assert false;  // entry is an element, this a head
      } else {
        var newFirst := entry.next;
        list.next := this.next;
        list.next.prev := list;
        list.prev := entry;
        entry.next := list;
        this.next := newFirst;
        newFirst.prev := this;
        TruncatedWell(m, this, i, list);
      }
    }

    /** Put the elements of list in front of those of this. The head list is not reinitialised. */
    method Append(list: Elt, ghost m: Rings)
      requires Well(m) && IsList(m, this) && IsList(m, list) && list != this
      modifies this, next, list.next, list.prev
      ensures Contents(m, list) == [] ==> Well(m)
      ensures Contents(m, list) != [] ==>
        Well(WithList(m - {list}, this, Contents(m, list) + Contents(m, this)))
    {
      hide Ring, Anchored, Apart;
      Links(m, list, 0);
      if list.next != list {
        Concat(list, this, next, m, this, 0);
        assert [this] + (Contents(m, list) + Contents(m, this)) == m[this][..1] + Contents(m, list) + m[this][1..];
      }
    }

    method AppendBack(list: Elt, ghost m: Rings)
      requires Well(m) && IsList(m, this) && IsList(m, list) && list != this
      modifies this, prev, list.next, list.prev
      ensures Contents(m, list) == [] ==> Well(m)
      ensures Contents(m, list) != [] ==>
        Well(WithList(m - {list}, this, Contents(m, this) + Contents(m, list)))
    {
      hide Ring, Anchored, Apart;
      Links(m, list, 0);
      Links(m, this, 0);
      Links(m, this, |m[this]| - 1);
      if list.next != list {
        ghost var n := |m[this]|;
        Concat(list, prev, this, m, this, n - 1);
        assert [this] + (Contents(m, this) + Contents(m, list)) == m[this][..n] + Contents(m, list) + m[this][n..];
      }
    }
  }
}
