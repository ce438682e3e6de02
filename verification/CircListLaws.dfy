/** Laws that relate several list operations: cutting and joining, rotating, swapping back. */
module CircListLaws {
  import opened RingAlgebra
  import opened CircList
  import opened CircListIterator
  import CircListRuns

  // ----- truncate, then append -----

  /** Cutting a list and putting the cut part back in front restores it; putting it at the back rotates it. */
  lemma CutThenJoin<T>(m: Family<T>, h: T, i: int, n: T)
    requires h in m && 1 <= i < |m[h]| && m[h][0] == h && n in m && n != h
    ensures var r := Truncated(m, h, i, n); var xs := Contents(m, h);
      && Contents(r, n) == xs[..i] && Contents(r, h) == xs[i..]
      && WithList(r - {n}, h, Contents(r, n) + Contents(r, h)) == m - {n}
      && WithList(r - {n}, h, Contents(r, h) + Contents(r, n)) == WithList(m - {n}, h, xs[i..] + xs[..i])
  {
    var r, s := Truncated(m, h, i, n), m[h];
    assert s[1..i + 1] == s[1..][..i] && s[i + 1..] == s[1..][i..];
    assert r[n][1..] == s[1..i + 1] && r[h][1..] == s[i + 1..];
    assert [h] + (s[1..i + 1] + s[i + 1..]) == s;
    assert r - {n} - {h} == m - {n} - {h};
  }

  /** On the heap: truncate at an entry, then join the two parts again. */
  method CutAndJoin(h: Elt, entry: Elt, n: Elt, back: bool, ghost m: Rings, ghost i: int)
    requires Well(m) && IsList(m, h) && IsList(m, n) && m[n] == [n] && n != h
    requires At(m, h, i, entry) && i > 0 && entry.payload != null
    modifies Nodes(m)
    ensures var xs := Contents(m, h);
      Well(if back then WithList(m - {n}, h, xs[i..] + xs[..i]) else m - {n})
  {
    hide Ring, Anchored, Apart;
    Links(m, h, 0);
    Links(m, h, i);
    Links(m, n, 0);
    CutThenJoin(m, h, i, n);
    ghost var r: Rings := Truncated(m, h, i, n);
    h.Truncate(entry, n, m, i);
    Links(r, h, 0);
    Links(r, n, 0);
    CircListRuns.TruncatedNodesKept(m, h, i, n);
    if back {
      h.AppendBack(n, r);
    } else {
      h.Append(n, r);
    }
  }

  // ----- rotations -----

  ghost function RotatedTimes<T>(xs: seq<T>, k: nat): seq<T> {
    if k == 0 then xs else Rotated(RotatedTimes(xs, k - 1))
  }

  lemma RotatedStep<T>(xs: seq<T>, r: nat)
    requires r < |xs|
    ensures Rotated(xs[r..] + xs[..r]) == xs[r + 1..] + xs[..r + 1]
  {
    assert (xs[r..] + xs[..r])[1..] == xs[r + 1..] + xs[..r];
    assert xs[..r] + [xs[r]] == xs[..r + 1];
  }

  lemma NextRemainder(k: nat, n: nat)
    requires n > 0
    ensures (k + 1) % n == if k % n + 1 == n then 0 else k % n + 1
  {
    var q, d := k / n, (k + 1) / n - k / n;
    assert n * d == k % n + 1 - (k + 1) % n by {
      assert k == n * q + k % n && k + 1 == n * (q + d) + (k + 1) % n;
    }
    assert (d >= 2 ==> n * d >= n * 2) && (d <= -1 ==> n * d + n <= 0);
  }

  /** k rotations turn the list by k modulo its length. */
  lemma {:induction false} RotationsTurn<T>(xs: seq<T>, k: nat)
    requires xs != []
    ensures RotatedTimes(xs, k) == xs[k % |xs|..] + xs[..k % |xs|]
  {
    if k > 0 {
      var r := (k - 1) % |xs|;
      RotationsTurn(xs, k - 1);
      RotatedStep(xs, r);
      NextRemainder(k - 1, |xs|);
      assert r + 1 == |xs| ==> xs[r + 1..] + xs[..r + 1] == xs[0..] + xs[..0];
    }
  }

  lemma FullTurn<T>(xs: seq<T>)
    ensures RotatedTimes(xs, |xs|) == xs
  {
    if xs != [] {
      RotationsTurn(xs, |xs|);
    }
  }

  /** On the heap: rotate a list k times. */
  method RotateTimes(h: Elt, k: nat, ghost m: Rings)
    requires Well(m) && IsList(m, h)
    modifies Nodes(m)
    ensures Well(WithList(m, h, RotatedTimes(Contents(m, h), k)))
  {
    hide Well, Rotated;
    ghost var xs: seq<Elt> := Contents(m, h);
    ghost var r: Rings := m;
    assert [h] + xs == m[h];
    for n := 0 to k
      invariant Well(r) && IsList(r, h) && Nodes(r) == Nodes(m)
      invariant r == WithList(m, h, RotatedTimes(xs, n))
    {
      assert Contents(r, h) == RotatedTimes(xs, n);
      RotatedNodes(r, h);
      h.RotateLeft(r);
      r := WithList(r, h, Rotated(Contents(r, h)));
      assert RotatedTimes(xs, n + 1) == Rotated(RotatedTimes(xs, n));
    }
  }

  // ----- swap -----

  /** A second swap of the same two iterators restores the lists, and puts the iterators back. */
  method SwapTwice(a: Iterator, b: Iterator, ghost m: Rings, ghost h: Elt, ghost i: int, ghost k: Elt, ghost j: int)
    requires a != b && Well(m) && IsList(m, h) && IsList(m, k) && 1 <= i && 1 <= j
    requires At(m, h, i, a.elt) && At(m, k, j, b.elt) && a.elt != b.elt
    modifies a, b, Nodes(m)
    ensures Well(m) && a.elt == old(a.elt) && b.elt == old(b.elt) && a.Fresh() && b.Fresh()
  {
    hide Well, Switched;
    SwitchedTwice(m, h, i, k, j);
    ghost var r: Rings := Switched(m, h, i, k, j);
    SwitchedNodes(m, h, i, k, j);
    Swap(a, b, m, h, i, k, j);
    Swap(a, b, r, h, i, k, j);
  }
}
