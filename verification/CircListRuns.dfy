/** Whole runs of list operations over any number of lists, and what the links alone determine. */
module CircListRuns {
  import opened RingAlgebra
  import opened CircList
  import opened CircListIterator

  // ----- what a well-formed heap says about single nodes -----

  /** `next` and `prev` are inverse, and a node stands at one place of one ring only. */
  lemma EveryNodeOnce(m: Rings, a: Elt, i: int, b: Elt, j: int)
    requires Well(m) && a in m && b in m && 0 <= i < |m[a]| && 0 <= j < |m[b]|
    ensures var x := m[a][i];
      && x.next in Nodes(m) && x.next.prev == x && x.prev in Nodes(m) && x.prev.next == x
    ensures m[a][i] == m[b][j] ==> a == b && i == j
  {
    var s: seq<Elt> := m[a];
    Links(m, a, i);
    Links(m, a, if i + 1 < |s| then i + 1 else 0);
    Links(m, a, if i > 0 then i - 1 else |s| - 1);
    assert Ring(s) && m[b][j] in m[b];
    assert a != b ==> Disjoint(m[a], m[b]);
  }

  /** Following `next` from a node yields one sequence only. */
  lemma {:induction false} RingPrefix(s: seq<Elt>, t: seq<Elt>, k: nat)
    requires Ring(s) && Ring(t) && s[0] == t[0] && k <= |s| && k <= |t|
    ensures s[..k] == t[..k]
  {
    if k > 1 {
      RingPrefix(s, t, k - 1);
      assert s[k - 2] == s[..k - 1][k - 2] == t[..k - 1][k - 2] == t[k - 2];
      assert s[k - 2].next == s[k - 1] && t[k - 2].next == t[k - 1];
      assert s[..k] == s[..k - 1] + [s[k - 1]];
    }
  }

  lemma ShorterRing(s: seq<Elt>, t: seq<Elt>)
    requires Ring(s) && Ring(t) && s[0] == t[0] && |s| <= |t|
    ensures s == t
  {
    RingPrefix(s, t, |s|);
    assert s[..|s|] == s;
    assert s[|s| - 1] == t[..|s|][|s| - 1] == t[|s| - 1];
    assert t[|s| - 1].next == t[0];
  }

  lemma RingDetermined(s: seq<Elt>, t: seq<Elt>)
    requires Ring(s) && Ring(t) && s[0] == t[0]
    ensures s == t
  {
    if |s| <= |t| {
      ShorterRing(s, t);
    } else {
      ShorterRing(t, s);
    }
  }

  /** A node that anchors a ring anchors one in every description that has it. */
  lemma SameAnchor(m: Rings, n: Rings, a: Elt)
    requires Well(m) && Well(n) && a in m && a in Nodes(n)
    ensures a in n
  {
    assert Anchored(a, m[a]) && Ring(m[a]);
    var b: Elt :| b in n && a in n[b];
    var k :| 0 <= k < |n[b]| && n[b][k] == a;
    hide Ring, Anchored, Apart;
    Links(m, a, 0);
    Links(n, b, k);
  }

  /** The links determine the abstract state: no two descriptions of the same nodes fit the same heap. */
  lemma RingsDetermined(m: Rings, n: Rings)
    requires Well(m) && Well(n) && Nodes(m) == Nodes(n)
    ensures m == n
  {
    forall a | a in m ensures a in n && m[a] == n[a] {
      assert Anchored(a, m[a]) && a in m[a];
      SameAnchor(m, n, a);
      assert Anchored(a, n[a]);
      RingDetermined(m[a], n[a]);
    }
    forall a | a in n ensures a in m {
      assert Anchored(a, n[a]) && a in n[a];
      SameAnchor(n, m, a);
    }
  }

  // ----- runs -----

  datatype ListOp =
    | Push(head: Elt, elt: Elt)
    | PushBack(head: Elt, elt: Elt)
    | Pop(head: Elt)
    | PopBack(head: Elt)
    | Extract(elt: Elt, from: Elt, i: int)
    | InsertAfter(elt: Elt, target: Elt, to: Elt, j: int)
    | InsertBefore(elt: Elt, target: Elt, to: Elt, j: int)
    | Move(elt: Elt, from: Elt, i: int, target: Elt, to: Elt, j: int)
    | MoveTail(elt: Elt, from: Elt, i: int, target: Elt, to: Elt, j: int)
    | Replace(newElt: Elt, elt: Elt, from: Elt, i: int)
    | ReplaceBy(elt: Elt, newElt: Elt, from: Elt, i: int)
    | RotateLeft(head: Elt)
    | Truncate(head: Elt, entry: Elt, i: int, into: Elt)
    | Append(head: Elt, list: Elt)
    | AppendBack(head: Elt, list: Elt)
    | Swap(elt: Elt, from: Elt, i: int, other: Elt, to: Elt, j: int)

  /** What the source asks of the caller of each operation: its asserts, and that the nodes are
      where the caller says they are. */
  ghost predicate Enabled(m: Rings, op: ListOp) {
    match op
    case Push(h, e) => IsList(m, h) && IsLoose(m, e)
    case PushBack(h, e) => IsList(m, h) && IsLoose(m, e)
    case Pop(h) => IsList(m, h)
    case PopBack(h) => IsList(m, h)
    case Extract(e, a, i) => IsList(m, a) && At(m, a, i, e) && i > 0
    case InsertAfter(e, t, a, j) => IsLoose(m, e) && IsList(m, a) && At(m, a, j, t)
    case InsertBefore(e, t, a, j) => IsLoose(m, e) && IsList(m, a) && At(m, a, j, t)
    case Move(e, a, i, t, b, j) => CanMove(m, a, i, e, b, j, t)
    case MoveTail(e, a, i, t, b, j) => CanMove(m, a, i, e, b, j, t)
    case Replace(n, e, a, i) => IsLoose(m, n) && At(m, a, i, e) && e.payload != null
    case ReplaceBy(e, n, a, i) =>
      At(m, a, i, e) && n in m && m[n] == [n] && n != e && e.payload == n.payload
    case RotateLeft(h) => IsList(m, h)
    case Truncate(h, e, i, n) => IsList(m, h) && At(m, h, i, e) && i > 0 && IsList(m, n) && m[n] == [n] && n != h
    case Append(h, l) => IsList(m, h) && IsList(m, l) && l != h
    case AppendBack(h, l) => IsList(m, h) && IsList(m, l) && l != h
    case Swap(e, a, i, f, b, j) =>
      IsList(m, a) && IsList(m, b) && i > 0 && j > 0 && At(m, a, i, e) && At(m, b, j, f) && e != f
  }

  /** The same operation on plain sequences. */
  ghost function Apply(m: Rings, op: ListOp): Rings
    requires Enabled(m, op)
  {
    match op
    case Push(h, e) => WithList(m - {e}, h, [e] + Contents(m, h))
    case PushBack(h, e) => WithList(m - {e}, h, Contents(m, h) + [e])
    case Pop(h) =>
      var xs := Contents(m, h);
      if xs == [] then m else Loose(WithList(m, h, xs[1..]), xs[0])
    case PopBack(h) =>
      var xs := Contents(m, h);
      if xs == [] then m else Loose(WithList(m, h, xs[..|xs| - 1]), xs[|xs| - 1])
    case Extract(_, a, i) => Extracted(m, a, i)
    case InsertAfter(e, _, a, j) => MovedAfter(m, e, 0, a, j)
    case InsertBefore(e, _, a, j) => MovedBefore(m, e, 0, a, j)
    case Move(_, a, i, _, b, j) => MovedAfter(m, a, i, b, j)
    case MoveTail(_, a, i, _, b, j) => MovedBefore(m, a, i, b, j)
    case Replace(n, _, a, i) => Exchanged(m, a, i, n)
    case ReplaceBy(_, n, a, i) => ReplacedBy(m, a, i, n)
    case RotateLeft(h) => WithList(m, h, Rotated(Contents(m, h)))
    case Truncate(h, _, i, n) => Truncated(m, h, i, n)
    case Append(h, l) =>
      if Contents(m, l) == [] then m else WithList(m - {l}, h, Contents(m, l) + Contents(m, h))
    case AppendBack(h, l) =>
      if Contents(m, l) == [] then m else WithList(m - {l}, h, Contents(m, h) + Contents(m, l))
    case Swap(_, a, i, _, b, j) => Switched(m, a, i, b, j)
  }

  /** y stands right after x in a ring. */
  ghost predicate Follows(s: seq<Elt>, x: Elt, y: Elt) {
    exists k :: 0 <= k < |s| && s[k] == x && Nth(s, k + 1) == y
  }

  ghost predicate HasList(r: Rings, h: Elt, xs: seq<Elt>) {
    h in r && r[h] == [h] + xs
  }

  ghost predicate Alone(r: Rings, x: Elt) {
    x in r && r[x] == [x]
  }

  /** What an operation leaves in the lists it names, element by element. */
  ghost predicate Means(m: Rings, op: ListOp, r: Rings)
    requires Enabled(m, op)
  {
    match op
    case Push(h, e) => HasList(r, h, [e] + Contents(m, h)) && e !in r
    case PushBack(h, e) => HasList(r, h, Contents(m, h) + [e]) && e !in r
    case Pop(h) =>
      var xs := Contents(m, h);
      if xs == [] then r == m else HasList(r, h, xs[1..]) && Alone(r, xs[0])
    case PopBack(h) =>
      var xs := Contents(m, h);
      if xs == [] then r == m else HasList(r, h, xs[..|xs| - 1]) && Alone(r, xs[|xs| - 1])
    case Extract(e, a, i) => HasList(r, a, Contents(m, a)[..i - 1] + Contents(m, a)[i..]) && Alone(r, e)
    case InsertAfter(e, t, a, _) => a in r && Follows(r[a], t, e) && |r[a]| == |m[a]| + 1 && e !in r
    case InsertBefore(e, t, a, _) => a in r && Follows(r[a], e, t) && |r[a]| == |m[a]| + 1 && e !in r
    case Move(e, a, _, t, b, _) =>
      b in r && Follows(r[b], t, e) && |r[b]| == |m[b]| + if a == b then 0 else 1
    case MoveTail(e, a, _, t, b, _) =>
      b in r && Follows(r[b], e, t) && |r[b]| == |m[b]| + if a == b then 0 else 1
    case Replace(n, e, a, i) =>
      if i == 0 then r == m
      else a in r && r[a] == m[a][i := n] && Alone(r, e) && n !in r
    case ReplaceBy(e, n, a, i) =>
      if |m[a]| == 1 then r == m
      else if i > 0 then a in r && r[a] == m[a][i := n] && Alone(r, e) && n !in r
      else HasList(r, n, Contents(m, a)) && Alone(r, a)
    case RotateLeft(h) =>
      var xs := Contents(m, h);
      HasList(r, h, if xs == [] then [] else xs[1..] + [xs[0]])
    case Truncate(h, _, i, n) => HasList(r, n, Contents(m, h)[..i]) && HasList(r, h, Contents(m, h)[i..])
    case Append(h, l) =>
      if Contents(m, l) == [] then r == m else HasList(r, h, Contents(m, l) + Contents(m, h))
    case AppendBack(h, l) =>
      if Contents(m, l) == [] then r == m else HasList(r, h, Contents(m, h) + Contents(m, l))
    case Swap(e, a, i, f, b, j) =>
      a in r && b in r && |r[a]| == |m[a]| && |r[b]| == |m[b]| && r[a][i] == f && r[b][j] == e
  }

  lemma EndsMean(m: Rings, op: ListOp)
    requires Enabled(m, op) && (op.Push? || op.PushBack? || op.Pop? || op.PopBack? || op.RotateLeft?)
    requires forall a | a in m :: Anchored(a, m[a])
    ensures Means(m, op, Apply(m, op))
  {
    hide Anchored;
    match op {
      case Push(h, e) => NotBoth(m, h, e);
      case PushBack(h, e) => NotBoth(m, h, e);
      case Pop(h) =>
        InnerNotHead(m, h);
        assert Contents(m, h) != [] ==> Contents(m, h)[0] in Contents(m, h);
      case PopBack(h) =>
        InnerNotHead(m, h);
        assert Contents(m, h) != [] ==> Contents(m, h)[|m[h]| - 2] in Contents(m, h);
      case RotateLeft(h) =>
    }
  }

  lemma NotBoth(m: Rings, h: Elt, e: Elt)
    requires IsList(m, h) && IsLoose(m, e)
    ensures h != e
  {
  }

  lemma InnerNotHead(m: Rings, h: Elt)
    requires IsList(m, h) && Anchored(h, m[h])
    ensures forall x | x in Contents(m, h) :: x != h
  {
  }

  lemma ListsMean(m: Rings, op: ListOp)
    requires Enabled(m, op) && (op.Truncate? || op.Append? || op.AppendBack?)
    ensures Means(m, op, Apply(m, op))
  {
    if op.Truncate? {
      CutContents(m[op.head], op.i);
    }
  }

  lemma CutContents(s: seq<Elt>, i: int)
    requires 1 <= i < |s|
    ensures s[1..i + 1] == s[1..][..i] && s[i + 1..] == s[1..][i..]
  {
  }

  lemma PlacesMean(m: Rings, op: ListOp)
    requires Well(m) && Enabled(m, op) && (op.Move? || op.MoveTail? || op.Replace? || op.ReplaceBy?)
    ensures Means(m, op, Apply(m, op))
  {
    hide Well, MovedAfter, MovedBefore, DropAt;
    match op {
      case Move(e, a, i, t, b, j) => Shifted(m, a, i, e, b, j, t); MovedAfterMeans(m, a, i, b, j);
      case MoveTail(e, a, i, t, b, j) => Shifted(m, a, i, e, b, j, t); MovedBeforeMeans(m, a, i, b, j);
      case Replace(n, _, a, i) => Links(m, a, i);
      case ReplaceBy(_, n, a, i) => Links(m, a, i);
    }
  }

  lemma ElementsMean(m: Rings, op: ListOp)
    requires Well(m) && Enabled(m, op) && (op.Extract? || op.InsertAfter? || op.InsertBefore? || op.Swap?)
    ensures Means(m, op, Apply(m, op))
  {
    hide Well, MovedAfter, MovedBefore, Extracted, Switched;
    match op {
      case Extract(_, a, i) => Links(m, a, i); ExtractedMeans(m, a, i);
      case InsertAfter(e, _, a, j) => Links(m, a, j); MovedAfterMeans(m, e, 0, a, j);
      case InsertBefore(e, _, a, j) => Links(m, a, j); MovedBeforeMeans(m, e, 0, a, j);
      case Swap(_, a, i, _, b, j) => SwitchedMeans(m, a, i, b, j);
    }
  }

  /** Each operation on plain sequences means what its name says. */
  lemma ApplyMeans(m: Rings, op: ListOp)
    requires Well(m) && Enabled(m, op)
    ensures Means(m, op, Apply(m, op))
  {
    hide Apply, Means, Ring, Apart;
    if op.Push? || op.PushBack? || op.Pop? || op.PopBack? || op.RotateLeft? {
      EndsMean(m, op);
    } else if op.Truncate? || op.Append? || op.AppendBack? {
      ListsMean(m, op);
    } else if op.Move? || op.MoveTail? || op.Replace? || op.ReplaceBy? {
      PlacesMean(m, op);
    } else {
      ElementsMean(m, op);
    }
  }

  /** The head an append leaves behind, which belongs to no list afterwards. */
  ghost function Abandoned(m: Rings, op: ListOp): set<Elt>
    requires Enabled(m, op)
  {
    match op
    case Append(_, l) => if Contents(m, l) == [] then {} else {l}
    case AppendBack(_, l) => if Contents(m, l) == [] then {} else {l}
    case _ => {}
  }

  method PerformAtEnds(op: ListOp, ghost m: Rings)
    requires Well(m) && Enabled(m, op)
    requires op.Push? || op.PushBack? || op.Pop? || op.PopBack? || op.RotateLeft?
    modifies Nodes(m)
    ensures Well(Apply(m, op))
  {
    hide Ring, Anchored, Apart;
    match op {
      case Push(h, e) =>
        Links(m, h, 0);
        Links(m, e, 0);
        h.Push(e, m);
      case PushBack(h, e) =>
        Links(m, h, 0);
        Links(m, e, 0);
        h.PushBack(e, m);
      case Pop(h) =>
        Links(m, h, 0);
        Links(m, h, if |m[h]| > 1 then 1 else 0);
        var _ := h.Pop(m);
      case PopBack(h) =>
        Links(m, h, 0);
        Links(m, h, |m[h]| - 1);
        var _ := h.PopBack(m);
      case RotateLeft(h) =>
        h.RotateLeft(m);
    }
  }

  method PerformOnLists(op: ListOp, ghost m: Rings)
    requires Well(m) && Enabled(m, op)
    requires op.Truncate? || op.Append? || op.AppendBack?
    modifies Nodes(m)
    ensures Well(Apply(m, op))
  {
    hide Ring, Anchored, Apart;
    match op {
      case Truncate(h, e, i, n) =>
        Links(m, h, 0);
        Links(m, h, i);
        Links(m, n, 0);
        h.Truncate(e, n, m, i);
      case Append(h, l) =>
        Links(m, h, 0);
        Links(m, l, 0);
        h.Append(l, m);
      case AppendBack(h, l) =>
        Links(m, h, 0);
        Links(m, l, 0);
        h.AppendBack(l, m);
    }
  }

  method PerformOnPlaces(op: ListOp, ghost m: Rings)
    requires Well(m) && Enabled(m, op)
    requires op.Move? || op.MoveTail? || op.Replace? || op.ReplaceBy?
    modifies Nodes(m)
    ensures Well(Apply(m, op))
  {
    hide Ring, Anchored, Apart;
    match op {
      case Move(e, a, i, t, b, j) =>
        Links(m, a, i);
        Links(m, b, j);
        e.MoveElt(t, m, a, i, b, j);
      case MoveTail(e, a, i, t, b, j) =>
        Links(m, a, i);
        Links(m, b, j);
        e.MoveEltTail(t, m, a, i, b, j);
      case Replace(n, e, a, i) =>
        Links(m, n, 0);
        Links(m, a, i);
        n.Replace(e, m, a, i);
      case ReplaceBy(e, n, a, i) =>
        Links(m, n, 0);
        Links(m, a, i);
        e.ReplaceBy(n, m, a, i);
    }
  }

  method PerformOnElements(op: ListOp, ghost m: Rings)
    requires Well(m) && Enabled(m, op)
    requires op.Extract? || op.InsertAfter? || op.InsertBefore? || op.Swap?
    modifies Nodes(m)
    ensures Well(Apply(m, op))
  {
    hide Ring, Anchored, Apart;
    match op {
      case Extract(e, a, i) =>
        TakeOut(e, m, a, i);
      case InsertAfter(e, t, a, j) =>
        Links(m, e, 0);
        Links(m, a, j);
        e.InsertAfter(t, m, a, j);
      case InsertBefore(e, t, a, j) =>
        Links(m, e, 0);
        Links(m, a, j);
        e.InsertBefore(t, m, a, j);
      case Swap(e, a, i, f, b, j) =>
        var it := new Iterator(e);
        var jt := new Iterator(f);
        CircListIterator.Swap(it, jt, m, a, i, b, j);
    }
  }

  /** Carry out one operation on the heap. */
  method Perform(op: ListOp, ghost m: Rings)
    requires Well(m) && Enabled(m, op)
    modifies Nodes(m)
    ensures Well(Apply(m, op))
  {
    hide Well, Apply;
    if op.Push? || op.PushBack? || op.Pop? || op.PopBack? || op.RotateLeft? {
      PerformAtEnds(op, m);
    } else if op.Truncate? || op.Append? || op.AppendBack? {
      PerformOnLists(op, m);
    } else if op.Move? || op.MoveTail? || op.Replace? || op.ReplaceBy? {
      PerformOnPlaces(op, m);
    } else {
      PerformOnElements(op, m);
    }
  }

  lemma MovedNodesKept(m: Rings, a: Elt, i: int, b: Elt, j: int, x: Elt, y: Elt)
    requires CanMove(m, a, i, x, b, j, y) && (i == 0 ==> m[a] == [x])
    ensures Nodes(MovedAfter(m, a, i, b, j)) == Nodes(m)
    ensures Nodes(MovedBefore(m, a, i, b, j)) == Nodes(m)
  {
    hide Nodes, Elems, DropAt, PutAt;
    var d, m1: Rings := Shift(a, i, b, j), Detach(m, a, i);
    SameNodes(m, MovedAfter(m, a, i, b, j), a, b, b);
    SameNodes(m, MovedBefore(m, a, i, b, j), a, b, b);
    ElemsSingle(x);
    ElemsDropPut(m1[b], d + 1, x);
    ElemsDropPut(m1[b], Before(m1, b, d), x);
    ElemsDropPut(m[a], i, x);
  }

  lemma ReplacedNodesKept(m: Rings, a: Elt, i: int, n: Elt)
    requires a in m && 0 <= i < |m[a]| && m[a][0] == a && (i > 0 ==> m[a][i] !in m)
    requires n in m && m[n] == [n] && m[a][i] != n
    ensures Nodes(ReplacedBy(m, a, i, n)) == Nodes(m)
  {
    if i > 0 && |m[a]| > 1 {
      ExchangedNodes(m, a, i, n);
    } else if |m[a]| > 1 {
      HeadReplacedNodes(m, a, n);
    }
  }

  lemma HeadOnce(m: Rings, l: Elt)
    requires Well(m) && IsList(m, l)
    ensures l !in Contents(m, l) && forall b | b in m && b != l :: l !in m[b]
  {
    assert Ring(m[l]) && l in m[l];
    assert forall b | b in m && b != l :: Disjoint(m[l], m[b]);
  }

  lemma MergedNodesKept(m: Rings, h: Elt, l: Elt, zs: seq<Elt>)
    requires IsList(m, h) && IsList(m, l) && l != h
    requires Elems(zs) == Elems(Contents(m, h)) + Elems(Contents(m, l))
    requires l !in Contents(m, l) && forall b | b in m && b != l :: l !in m[b]
    ensures Nodes(WithList(m - {l}, h, zs)) == Nodes(m) - {l}
  {
    var xs, ys := Contents(m, h), Contents(m, l);
    assert m[h] == [h] + xs && m[l] == [l] + ys;
    assert l !in Elems(ys) && l !in Elems(xs) && l !in Nodes(m - {h, l, l});
    ElemsSingle(h);
    ElemsSingle(l);
    ElemsConcat([h], xs);
    ElemsConcat([l], ys);
    ElemsConcat([h], zs);
    hide Nodes, Elems;
    SameNodes(m, WithList(m - {l}, h, zs), h, l, l);
  }

  lemma AppendedNodesKept(m: Rings, h: Elt, l: Elt)
    requires Well(m) && IsList(m, h) && IsList(m, l) && l != h
    ensures Nodes(WithList(m - {l}, h, Contents(m, l) + Contents(m, h))) == Nodes(m) - {l}
    ensures Nodes(WithList(m - {l}, h, Contents(m, h) + Contents(m, l))) == Nodes(m) - {l}
  {
    var xs, ys := Contents(m, h), Contents(m, l);
    HeadOnce(m, l);
    ElemsConcat(xs, ys);
    ElemsConcat(ys, xs);
    MergedNodesKept(m, h, l, ys + xs);
    MergedNodesKept(m, h, l, xs + ys);
  }

  lemma PushedNodesKept(m: Rings, h: Elt, e: Elt)
    requires IsList(m, h) && IsLoose(m, e)
    ensures Nodes(WithList(m - {e}, h, [e] + Contents(m, h))) == Nodes(m)
    ensures Nodes(WithList(m - {e}, h, Contents(m, h) + [e])) == Nodes(m)
  {
    hide Nodes, Elems;
    var xs := Contents(m, h);
    assert m[h] == [h] + xs;
    ElemsConcat([h], xs);
    SameNodes(m, WithList(m - {e}, h, [e] + xs), h, e, e);
    SameNodes(m, WithList(m - {e}, h, xs + [e]), h, e, e);
    ElemsConcat([h], [e] + xs);
    ElemsConcat([e], xs);
    ElemsConcat([h], xs + [e]);
    ElemsConcat(xs, [e]);
  }

  lemma PoppedIsExtracted(m: Rings, h: Elt)
    requires IsList(m, h) && Contents(m, h) != []
    ensures var xs := Contents(m, h); var n := |xs|;
      && Loose(WithList(m, h, xs[1..]), xs[0]) == Extracted(m, h, 1)
      && Loose(WithList(m, h, xs[..n - 1]), xs[n - 1]) == Extracted(m, h, n)
  {
    var xs := Contents(m, h);
    assert DropAt(m[h], 1) == [h] + xs[1..];
    DetachedLast(m, h);
  }

  lemma TruncatedNodesKept(m: Rings, h: Elt, i: int, n: Elt)
    requires IsList(m, h) && 1 <= i < |m[h]| && IsList(m, n) && m[n] == [n] && n != h
    ensures Nodes(Truncated(m, h, i, n)) == Nodes(m)
  {
    hide Nodes, Elems;
    var s := m[h];
    ElemsSingle(h);
    ElemsSingle(n);
    SameNodes(m, Truncated(m, h, i, n), h, n, n);
    assert s == [h] + s[1..i + 1] + s[i + 1..];
    ElemsConcat([h], s[1..i + 1]);
    ElemsConcat([h] + s[1..i + 1], s[i + 1..]);
    ElemsConcat([n], s[1..i + 1]);
    ElemsConcat([h], s[i + 1..]);
  }

  lemma NodesKeptAtEnds(m: Rings, op: ListOp)
    requires Well(m) && Enabled(m, op)
    requires op.Push? || op.PushBack? || op.Pop? || op.PopBack? || op.RotateLeft?
    ensures Nodes(Apply(m, op)) == Nodes(m) - Abandoned(m, op)
  {
    hide Well, Nodes, Switched, Extracted, MovedAfter, MovedBefore, ReplacedBy, Truncated, WithList, Rotated;
    match op {
      case Push(h, e) => PushedNodesKept(m, h, e);
      case PushBack(h, e) => PushedNodesKept(m, h, e);
      case Pop(h) =>
        if Contents(m, h) != [] {
          PoppedIsExtracted(m, h);
          ExtractedNodes(m, h, 1);
        }
      case PopBack(h) =>
        if Contents(m, h) != [] {
          PoppedIsExtracted(m, h);
          ExtractedNodes(m, h, |m[h]| - 1);
        }
      case RotateLeft(h) => RotatedNodes(m, h);
    }
  }

  lemma NodesKeptOnLists(m: Rings, op: ListOp)
    requires Well(m) && Enabled(m, op)
    requires op.Truncate? || op.Append? || op.AppendBack?
    ensures Nodes(Apply(m, op)) == Nodes(m) - Abandoned(m, op)
  {
    hide Well, Nodes, Switched, Extracted, MovedAfter, MovedBefore, ReplacedBy, Truncated, WithList, Rotated;
    match op {
      case Truncate(h, _, i, n) => TruncatedNodesKept(m, h, i, n);
      case Append(h, l) => AppendedNodesKept(m, h, l);
      case AppendBack(h, l) => AppendedNodesKept(m, h, l);
    }
  }

  lemma NodesKeptOnPlaces(m: Rings, op: ListOp)
    requires Well(m) && Enabled(m, op)
    requires op.Move? || op.MoveTail? || op.Replace? || op.ReplaceBy?
    ensures Nodes(Apply(m, op)) == Nodes(m) - Abandoned(m, op)
  {
    hide Well, Nodes, Switched, Extracted, MovedAfter, MovedBefore, ReplacedBy, Truncated, WithList, Rotated;
    match op {
      case Move(e, a, i, t, b, j) => Shifted(m, a, i, e, b, j, t); MovedNodesKept(m, a, i, b, j, e, t);
      case MoveTail(e, a, i, t, b, j) => Shifted(m, a, i, e, b, j, t); MovedNodesKept(m, a, i, b, j, e, t);
      case Replace(n, _, a, i) =>
        Links(m, a, i);
        if i > 0 {
          ExchangedNodes(m, a, i, n);
        }
      case ReplaceBy(_, n, a, i) =>
        Links(m, a, i);
        ReplacedNodesKept(m, a, i, n);
    }
  }

  lemma NodesKeptOnElements(m: Rings, op: ListOp)
    requires Well(m) && Enabled(m, op)
    requires op.Extract? || op.InsertAfter? || op.InsertBefore? || op.Swap?
    ensures Nodes(Apply(m, op)) == Nodes(m) - Abandoned(m, op)
  {
    hide Well, Nodes, Switched, Extracted, MovedAfter, MovedBefore, ReplacedBy, Truncated, WithList, Rotated;
    match op {
      case Extract(_, a, i) => ExtractedNodes(m, a, i);
      case InsertAfter(e, t, a, j) => Links(m, a, j); MovedNodesKept(m, e, 0, a, j, e, t);
      case InsertBefore(e, t, a, j) => Links(m, a, j); MovedNodesKept(m, e, 0, a, j, e, t);
      case Swap(_, a, i, _, b, j) => SwitchedNodes(m, a, i, b, j);
    }
  }

  /** No operation loses or invents a node; only an append leaves one behind, the emptied head. */
  lemma NodesKept(m: Rings, op: ListOp)
    requires Well(m) && Enabled(m, op)
    ensures Nodes(Apply(m, op)) == Nodes(m) - Abandoned(m, op)
  {
    hide Well, Nodes, Apply, Abandoned;
    if op.Push? || op.PushBack? || op.Pop? || op.PopBack? || op.RotateLeft? {
      NodesKeptAtEnds(m, op);
    } else if op.Truncate? || op.Append? || op.AppendBack? {
      NodesKeptOnLists(m, op);
    } else if op.Move? || op.MoveTail? || op.Replace? || op.ReplaceBy? {
      NodesKeptOnPlaces(m, op);
    } else {
      NodesKeptOnElements(m, op);
    }
  }

  ghost predicate AllEnabled(m: Rings, ops: seq<ListOp>)
    decreases |ops|
  {
    ops == [] || (Enabled(m, ops[0]) && AllEnabled(Apply(m, ops[0]), ops[1..]))
  }

  ghost function ApplyAll(m: Rings, ops: seq<ListOp>): Rings
    requires AllEnabled(m, ops)
    decreases |ops|
  {
    if ops == [] then m else ApplyAll(Apply(m, ops[0]), ops[1..])
  }

  /** The rings an operation works on, by their anchors. */
  function Named(op: ListOp): set<Elt> {
    match op
    case Push(h, e) => {h, e}
    case PushBack(h, e) => {h, e}
    case Pop(h) => {h}
    case PopBack(h) => {h}
    case Extract(_, a, _) => {a}
    case InsertAfter(e, _, a, _) => {e, a}
    case InsertBefore(e, _, a, _) => {e, a}
    case Move(_, a, _, _, b, _) => {a, b}
    case MoveTail(_, a, _, _, b, _) => {a, b}
    case Replace(n, _, a, _) => {n, a}
    case ReplaceBy(_, n, a, _) => {n, a}
    case RotateLeft(h) => {h}
    case Truncate(h, _, _, n) => {h, n}
    case Append(h, l) => {h, l}
    case AppendBack(h, l) => {h, l}
    case Swap(_, a, _, _, b, _) => {a, b}
  }

  lemma InnerNodes(m: Rings, a: Elt, b: Elt, i: int)
    requires Well(m) && a in m && b in m && b != a && 0 <= i < |m[b]|
    ensures m[b][i] != a
  {
    assert Anchored(a, m[a]);
    assert a in m[a];
    assert Disjoint(m[a], m[b]);
  }

  /** An operation leaves every ring alone that it does not name. */
  lemma OthersKeptStep(m: Rings, op: ListOp, a: Elt)
    requires Well(m) && Enabled(m, op) && a in m && a !in Named(op)
    ensures a in Apply(m, op) && Apply(m, op)[a] == m[a]
  {
    hide Well;
    match op {
      case Pop(h) =>
        if |m[h]| > 1 {
          InnerNodes(m, a, h, 1);
        }
      case PopBack(h) =>
        if |m[h]| > 1 {
          InnerNodes(m, a, h, |m[h]| - 1);
        }
      case Extract(_, b, i) => InnerNodes(m, a, b, i);
      case Replace(_, _, b, i) => InnerNodes(m, a, b, i);
      case ReplaceBy(_, _, b, i) => InnerNodes(m, a, b, i);
      case _ =>
    }
  }

  ghost predicate Unnamed(a: Elt, ops: seq<ListOp>) {
    forall op | op in ops :: a !in Named(op)
  }

  ghost predicate OthersKept(m: Rings, ops: seq<ListOp>, r: Rings) {
    forall a | a in m && Unnamed(a, ops) :: a in r && r[a] == m[a]
  }

  lemma OthersKeptLonger(m: Rings, ops: seq<ListOp>, r: Rings, op: ListOp)
    requires Well(r) && Enabled(r, op) && OthersKept(m, ops, r)
    ensures OthersKept(m, ops + [op], Apply(r, op))
  {
    hide Well, Enabled, Apply, Named;
    forall a | a in m && Unnamed(a, ops + [op]) ensures a in Apply(r, op) && Apply(r, op)[a] == m[a] {
      assert op in ops + [op];
      assert forall o | o in ops :: o in ops + [op];
      assert Unnamed(a, ops);
      OthersKeptStep(r, op, a);
    }
  }

  /** Any run of operations, over any number of lists, does to the heap what the same run does to
      plain sequences, and leaves every list alone that no operation names. */
  method Run(ops: seq<ListOp>, ghost m: Rings)
    requires Well(m) && AllEnabled(m, ops)
    modifies Nodes(m)
    ensures Well(ApplyAll(m, ops)) && OthersKept(m, ops, ApplyAll(m, ops))
  {
    hide Well, Apply, Enabled, Named, Unnamed;
    ghost var cur: Rings := m;
    for n := 0 to |ops|
      invariant Well(cur) && Nodes(cur) <= Nodes(m)
      invariant OthersKept(m, ops[..n], cur)
      invariant AllEnabled(cur, ops[n..]) && ApplyAll(cur, ops[n..]) == ApplyAll(m, ops)
    {
      assert ops[n..][0] == ops[n] && ops[n..][1..] == ops[n + 1..];
      assert ops[..n + 1] == ops[..n] + [ops[n]];
      NodesKept(cur, ops[n]);
      OthersKeptLonger(m, ops[..n], cur, ops[n]);
      Perform(ops[n], cur);
      cur := Apply(cur, ops[n]);
    }
    assert ops[..|ops|] == ops;
  }
}
