/** Families of rings as plain values, and what each list operation makes of them.
    A family maps the anchor of a ring to the nodes of that ring, the anchor first. */
module RingAlgebra {

  type Family<T> = map<T, seq<T>>

  ghost predicate Distinct<T>(s: seq<T>) {
    forall i, j :: 0 <= i < j < |s| ==> s[i] != s[j]
  }

  ghost predicate Disjoint<T>(s: seq<T>, t: seq<T>) {
    forall x | x in s :: x !in t
  }

  ghost function Nodes<T>(m: Family<T>): (nodes: set<T>)
    ensures forall a, x | a in m && x in m[a] :: x in nodes
  {
    set a, x | a in m && x in m[a] :: x
  }

  ghost predicate Untracked<T>(m: Family<T>, x: T) {
    forall a | a in m :: x !in m[a]
  }

  ghost predicate Apart<T>(m: Family<T>) {
    forall a, b | a in m && b in m && a != b :: Disjoint(m[a], m[b])
  }

  ghost predicate At<T>(m: Family<T>, a: T, i: int, x: T) {
    a in m && 0 <= i < |m[a]| && m[a][i] == x
  }

  /** The elements of list h, first to last. */
  ghost function Contents<T>(m: Family<T>, h: T): seq<T>
    requires h in m && |m[h]| > 0
  {
    m[h][1..]
  }

  ghost function WithList<T>(m: Family<T>, h: T, xs: seq<T>): Family<T> {
    m[h := [h] + xs]
  }

  ghost function DropAt<T>(s: seq<T>, i: int): (r: seq<T>)
    requires 0 <= i < |s|
    ensures |r| == |s| - 1
  {
    s[..i] + s[i + 1..]
  }

  ghost function PutAt<T>(s: seq<T>, i: int, x: T): (r: seq<T>)
    requires 0 <= i <= |s|
    ensures |r| == |s| + 1
  {
    s[..i] + [x] + s[i..]
  }

  /** Putting in and leaving out undo each other, and shift what comes after by one. */
  lemma DropPut<T>(s: seq<T>, i: int, x: T)
    requires 0 <= i <= |s|
    ensures PutAt(s, i, x)[i] == x && DropAt(PutAt(s, i, x), i) == s
    ensures forall k | 0 <= k < |s| :: s[k] == PutAt(s, i, x)[if k < i then k else k + 1]
    ensures i < |s| ==> PutAt(DropAt(s, i), i, s[i]) == s
  {
  }

  ghost function Nth<T>(s: seq<T>, i: int): T
    requires 0 <= i && |s| > 0
  {
    if i < |s| then s[i] else s[0]
  }

  lemma SameTail<T>(s: seq<T>, i: int, t: seq<T>, j: int)
    requires 0 <= i <= |s| && 0 <= j <= |t| && |s| > 0 && |t| > 0 && s[0] == t[0]
    requires s[i..] == t[j..]
    ensures Nth(s, i) == Nth(t, j)
  {
    assert i < |s| ==> s[i] == s[i..][0];
    assert j < |t| ==> t[j] == t[j..][0];
  }

  // ----- the three moves every operation is made of -----

  /** Node i of ring a leaves it (and is then tracked by no ring). */
  ghost function Detach<T>(m: Family<T>, a: T, i: int): Family<T>
    requires a in m && 0 <= i < |m[a]|
  {
    if i == 0 then m - {a} else m[a := DropAt(m[a], i)]
  }

  /** x, tracked by no ring, becomes node j of ring a. */
  ghost function Attach<T>(m: Family<T>, a: T, j: int, x: T): Family<T>
    requires a in m && 0 <= j <= |m[a]|
  {
    m[a := PutAt(m[a], j, x)]
  }

  ghost function Loose<T>(m: Family<T>, x: T): Family<T> {
    m[x := [x]]
  }

  /** The place at which an element comes to stand when it is put right before node j. */
  ghost function Before<T>(m: Family<T>, a: T, j: int): int
    requires a in m && 0 <= j < |m[a]|
  {
    if j == 0 then |m[a]| else j
  }

  // ----- facts about them -----

  /** Where the nodes stand when those of t but its first come in after node j of s. */
  lemma SplicePlaces<T>(s: seq<T>, j: int, t: seq<T>)
    requires 0 <= j < |s| && |t| > 0
    ensures var r := s[..j + 1] + t[1..] + s[j + 1..];
      && |r| == |s| + |t| - 1
      && forall k | 0 <= k < |r| ::
           r[k] == if k <= j then s[k] else if k < j + |t| then t[k - j] else s[k - |t| + 1]
  {
  }

  /** Each node of the spliced ring with the one after it. */
  lemma SpliceNext<T>(s: seq<T>, j: int, t: seq<T>, k: int)
    requires 0 <= j < |s| && |t| > 1 && 0 <= k < |s| + |t| - 1
    ensures var r := s[..j + 1] + t[1..] + s[j + 1..];
      && |r| == |s| + |t| - 1
      && (k < j ==> r[k] == s[k] && Nth(r, k + 1) == s[k + 1])
      && (k == j ==> r[k] == s[j] && Nth(r, k + 1) == t[1])
      && (j < k < j + |t| - 1 ==> r[k] == t[k - j] && Nth(r, k + 1) == t[k - j + 1])
      && (k == j + |t| - 1 ==> r[k] == t[|t| - 1] && Nth(r, k + 1) == Nth(s, j + 1))
      && (k >= j + |t| ==> r[k] == s[k - |t| + 1] && Nth(r, k + 1) == Nth(s, k - |t| + 2))
  {
    SplicePlaces(s, j, t);
  }

  lemma SpliceDistinct<T>(s: seq<T>, j: int, t: seq<T>)
    requires Distinct(s) && Distinct(t) && Disjoint(s, t) && 0 <= j < |s| && |t| > 0
    ensures Distinct(s[..j + 1] + t[1..] + s[j + 1..])
  {
    SplicePlaces(s, j, t);
    assert forall n :: 0 <= n < |t| ==> t[n] !in s;
  }

  lemma StillApart<T>(m: Family<T>, a: T, t: seq<T>)
    requires Apart(m)
    requires forall x | x in t :: (a in m && x in m[a]) || Untracked(m, x)
    ensures Apart(m[a := t])
  {
    forall b | b in m && b != a ensures Disjoint(t, m[b]) && Disjoint(m[b], t) {
      assert a in m ==> Disjoint(m[a], m[b]);
    }
  }

  lemma Alone<T>(m: Family<T>, x: T)
    requires Apart(m) && x in m && m[x] == [x]
    ensures Untracked(m - {x}, x)
  {
    assert x in m[x];
  }

  lemma SubstitutedNode<T>(m: Family<T>, a: T, i: int, x: T)
    requires a in m && 0 <= i < |m[a]| && Distinct(m[a]) && x != m[a][i]
    requires Apart(m)
    ensures Untracked(m[a := m[a][i := x]], m[a][i])
  {
    var m1 := m[a := m[a][i := x]];
    forall b | b in m1 ensures m[a][i] !in m1[b] {
      assert m[a][i] in m[a];
    }
  }

  /** Where node j of ring b stands once node i of ring a has left. */
  ghost function Shift<T>(a: T, i: int, b: T, j: int): int {
    if a == b && i < j then j - 1 else j
  }

  ghost function Extracted<T>(m: Family<T>, a: T, i: int): Family<T>
    requires a in m && 0 <= i < |m[a]|
  {
    Loose(Detach(m, a, i), m[a][i])
  }

  ghost function MovedAfter<T>(m: Family<T>, a: T, i: int, b: T, j: int): Family<T>
    requires a in m && b in m && 0 <= i < |m[a]| && 0 <= j < |m[b]|
    requires (a != b || i != j) && (i == 0 ==> a != b)
  {
    var m1 := Detach(m, a, i);
    Attach(m1, b, Shift(a, i, b, j) + 1, m[a][i])
  }

  ghost function MovedBefore<T>(m: Family<T>, a: T, i: int, b: T, j: int): Family<T>
    requires a in m && b in m && 0 <= i < |m[a]| && 0 <= j < |m[b]|
    requires (a != b || i != j) && (i == 0 ==> a != b)
  {
    var m1 := Detach(m, a, i);
    Attach(m1, b, Before(m1, b, Shift(a, i, b, j)), m[a][i])
  }

  /** What a move does, said of the rings before and after: the node stands right after the target, the rest
      of its new ring and of its old one keep their order, and no other ring changes. */
  lemma MovedAfterMeans<T>(m: Family<T>, a: T, i: int, b: T, j: int)
    requires a in m && b in m && 0 <= i < |m[a]| && 0 <= j < |m[b]|
    requires (a != b || i != j) && (i == 0 ==> a != b)
    ensures var r := MovedAfter(m, a, i, b, j); var d := if a == b && i < j then j - 1 else j;
      && r.Keys == (if i == 0 then m.Keys - {a} else m.Keys)
      && d + 1 < |r[b]| && r[b][d] == m[b][j] && r[b][d + 1] == m[a][i]
      && DropAt(r[b], d + 1) == (if a == b then DropAt(m[a], i) else m[b])
      && (a != b && i > 0 ==> r[a] == DropAt(m[a], i))
      && forall c | c in m && c != a && c != b :: r[c] == m[c]
  {
  }

  /** The same right before the target; before the first node is after the last. */
  lemma MovedBeforeMeans<T>(m: Family<T>, a: T, i: int, b: T, j: int)
    requires a in m && b in m && 0 <= i < |m[a]| && 0 <= j < |m[b]|
    requires (a != b || i != j) && (i == 0 ==> a != b)
    ensures var r := MovedBefore(m, a, i, b, j);
      var rest := if a == b then DropAt(m[a], i) else m[b];
      var p := if j == 0 then |rest| else if a == b && i < j then j - 1 else j;
      && r.Keys == (if i == 0 then m.Keys - {a} else m.Keys)
      && p < |r[b]| && r[b][p] == m[a][i] && Nth(r[b], p + 1) == m[b][j] && DropAt(r[b], p) == rest
      && (a != b && i > 0 ==> r[a] == DropAt(m[a], i))
      && forall c | c in m && c != a && c != b :: r[c] == m[c]
  {
    hide DropAt, PutAt;
    var rest, m1 := if a == b then DropAt(m[a], i) else m[b], Detach(m, a, i);
    var p := if j == 0 then |rest| else Shift(a, i, b, j);
    if a == b {
      DropPlace(m[a], i, j);
    }
    assert m1[b] == rest && Before(m1, b, Shift(a, i, b, j)) == p;
    PutPlace(rest, p, m[a][i]);
  }

  lemma DropPlace<T>(s: seq<T>, i: int, j: int)
    requires 0 <= i < |s| && 0 <= j < |s| && i != j
    ensures DropAt(s, i)[if i < j then j - 1 else j] == s[j]
  {
  }

  lemma PutPlace<T>(s: seq<T>, p: int, x: T)
    requires 0 <= p <= |s| && s != []
    ensures var r := PutAt(s, p, x);
      r[p] == x && DropAt(r, p) == s && Nth(r, p + 1) == if p < |s| then s[p] else s[0]
  {
    DropPut(s, p, x);
  }

  /** The node that was taken out is alone, its ring keeps the others in order, no other ring changes. */
  lemma ExtractedMeans<T>(m: Family<T>, a: T, i: int)
    requires a in m && 0 < i < |m[a]| && m[a][i] !in m
    ensures var r, x := Extracted(m, a, i), m[a][i];
      && r.Keys == m.Keys + {x} && r[x] == [x] && r[a] == DropAt(m[a], i)
      && forall c | c in m && c != a :: r[c] == m[c]
  {
  }

  lemma DetachedLast<T>(m: Family<T>, h: T)
    requires h in m && |m[h]| > 1 && m[h][0] == h
    ensures Detach(m, h, |m[h]| - 1) == WithList(m, h, Contents(m, h)[..|m[h]| - 2])
  {
    var s, n := m[h], |m[h]| - 1;
    assert s[..n] + s[n + 1..] == [h] + s[1..][..n - 1];
  }

  /** Element i of ring a gives its place to the loose element x, and becomes loose. */
  ghost function Exchanged<T>(m: Family<T>, a: T, i: int, x: T): Family<T>
    requires a in m && 0 <= i < |m[a]|
  {
    if i == 0 then m else Loose((m - {x})[a := m[a][i := x]], m[a][i])
  }

  ghost function Rotated<T>(xs: seq<T>): seq<T> {
    if xs == [] then [] else xs[1..] + [xs[0]]
  }

  /** What replacing node i of ring a by x, alone until then, makes of the rings. */
  ghost function ReplacedBy<T>(m: Family<T>, a: T, i: int, x: T): Family<T>
    requires a in m && 0 <= i < |m[a]|
  {
    if |m[a]| == 1 then m
    else if i == 0 then WithList(Loose(m, a), x, Contents(m, a))
    else Exchanged(m, a, i, x)
  }

  /** A loose node takes exactly the place of another, which is alone then. */
  lemma ExchangedMeans<T>(m: Family<T>, a: T, i: int, x: T)
    requires a in m && 0 < i < |m[a]| && m[a][i] !in m && x in m && x != a
    ensures var r, e := Exchanged(m, a, i, x), m[a][i];
      && r.Keys == m.Keys - {x} + {e} && r[e] == [e]
      && |r[a]| == |m[a]| && r[a][i] == x && (forall k | 0 <= k < |m[a]| && k != i :: r[a][k] == m[a][k])
      && forall c | c in m && c != a && c != x :: r[c] == m[c]
    ensures |m[a]| > 1 ==> ReplacedBy(m, a, i, x) == Exchanged(m, a, i, x)
  {
  }

  /** A head that takes over a list has its elements, and the old head an empty list. */
  lemma HeadReplacedMeans<T>(m: Family<T>, a: T, x: T)
    requires a in m && |m[a]| > 1 && x in m && x != a
    ensures var r := ReplacedBy(m, a, 0, x);
      && r.Keys == m.Keys && |r[a]| == 1 && r[a][0] == a && |r[x]| == |m[a]| && r[x][0] == x
      && Contents(r, x) == Contents(m, a)
      && forall c | c in m && c != a && c != x :: r[c] == m[c]
  {
  }

  /** What cutting list h after its element i, in favour of the empty head n, makes of the rings. */
  ghost function Truncated<T>(m: Family<T>, h: T, i: int, n: T): Family<T>
    requires h in m && 1 <= i < |m[h]|
  {
    WithList(WithList(m, n, m[h][1..i + 1]), h, m[h][i + 1..])
  }

  lemma TruncatedIs<T>(m: Family<T>, h: T, i: int, n: T)
    requires h in m && 1 <= i < |m[h]| && n != h
    ensures (m - {n} - {h})[n := [n] + m[h][1..i + 1]][h := [h] + m[h][i + 1..]] == Truncated(m, h, i, n)
  {
  }

  lemma HeadReplacedIs<T>(m: Family<T>, a: T, x: T)
    requires a in m && |m[a]| > 1 && x != a
    ensures (m - {x} - {a})[a := [a]][x := m[a][0 := x]] == ReplacedBy(m, a, 0, x)
  {
    assert m[a][0 := x] == [x] + m[a][1..];
  }

  lemma RotationIsMove<T>(m: Family<T>, h: T)
    requires h in m && |m[h]| > 1 && m[h][0] == h
    ensures MovedBefore(m, h, 1, h, 0) == WithList(m, h, Rotated(Contents(m, h)))
  {
    var s := m[h];
    assert s[..1] + s[2..] == [h] + s[2..];
    assert MovedBefore(m, h, 1, h, 0)[h] == [h] + Rotated(Contents(m, h));
  }

  // ----- what a traversal that removes elements leaves -----

  /** The elements of xs that are not among the chosen, in order. */
  ghost function Unchosen<T>(xs: seq<T>, chosen: set<T>): (r: seq<T>) {
    if xs == [] then []
    else
      var n := |xs| - 1;
      Unchosen(xs[..n], chosen) + if xs[n] in chosen then [] else [xs[n]]
  }

  ghost function Singles<T>(xs: seq<T>, chosen: set<T>): Family<T> {
    map x | x in xs && x in chosen :: [x]
  }

  /** List h after a traversal went over its first elements, seen, on its way to rest: the chosen
      ones seen so far are loose, the others keep their order, no other ring is touched. */
  ghost function Sifted<T>(m: Family<T>, h: T, seen: seq<T>, rest: seq<T>, chosen: set<T>): Family<T> {
    WithList(m, h, Unchosen(seen, chosen) + rest) + Singles(seen, chosen)
  }

  lemma ShiftOne<T>(a: seq<T>, b: seq<T>)
    requires b != []
    ensures (a + [b[0]]) + b[1..] == a + b
  {
  }

  lemma DropMiddle<T>(h: seq<T>, a: seq<T>, b: seq<T>)
    requires b != []
    ensures var s, i := h + (a + b), |h| + |a|;
      s[i] == b[0] && s[..i] + s[i + 1..] == h + (a + b[1..])
  {
    var s, i := h + (a + b), |h| + |a|;
    assert s[..i] == h + a && s[i + 1..] == b[1..];
  }

  lemma SiftedPlace<T>(m: Family<T>, h: T, seen: seq<T>, rest: seq<T>, chosen: set<T>)
    requires h !in seen
    ensures var r := Sifted(m, h, seen, rest, chosen); var i := 1 + |Unchosen(seen, chosen)|;
      h in r && i <= |r[h]| && r[h] == [h] + (Unchosen(seen, chosen) + rest) && r[h][i..] == rest
  {
  }

  lemma SiftedOut<T>(m: Family<T>, h: T, kept: seq<T>, rest: seq<T>, extra: Family<T>)
    requires rest != [] && h !in extra && h != rest[0]
    ensures var r := WithList(m, h, kept + rest) + extra;
      && 1 + |kept| < |r[h]|
      && Extracted(r, h, 1 + |kept|) == WithList(m, h, kept + rest[1..]) + extra[rest[0] := [rest[0]]]
  {
    DropMiddle([h], kept, rest);
    Reshuffled(m, h, [h] + (kept + rest), [h] + (kept + rest[1..]), extra, rest[0], [rest[0]]);
  }

  lemma SiftedTurn<T>(m: Family<T>, h: T, seen: seq<T>, rest: seq<T>, chosen: set<T>)
    requires rest != [] && h !in seen && h != rest[0]
    ensures var r := Sifted(m, h, seen, rest, chosen); var i := 1 + |Unchosen(seen, chosen)|;
      && h in r && i < |r[h]|
      && Sifted(m, h, seen + [rest[0]], rest[1..], chosen) == if rest[0] in chosen then Extracted(r, h, i) else r
  {
    var x, kept := rest[0], Unchosen(seen, chosen);
    UnchosenStep(seen, x, chosen);
    SinglesStep(seen, x, chosen);
    assert h !in Singles(seen, chosen);
    hide Extracted, Unchosen, Singles;
    if x in chosen {
      SiftedOut(m, h, kept, rest, Singles(seen, chosen));
      assert kept + [] == kept;
    } else {
      ShiftOne(kept, rest);
    }
  }

  /** Where the traversal of xs stands when seen is behind it. */
  ghost function Cursor<T>(seen: seq<T>, chosen: set<T>): int {
    1 + |Unchosen(seen, chosen)|
  }

  lemma SiftedStart<T>(m: Family<T>, h: T, chosen: set<T>)
    requires h in m && |m[h]| > 0 && m[h][0] == h
    ensures Sifted(m, h, [], m[h][1..], chosen) == m && Cursor([], chosen) == 1
  {
    assert m[h] == [h] + ([] + m[h][1..]);
  }

  /** One turn of a traversal of xs, as it shows in the rings. */
  lemma SiftedNext<T>(m: Family<T>, h: T, xs: seq<T>, seen: seq<T>, rest: seq<T>, chosen: set<T>)
    requires rest != [] && seen + rest == xs && h !in xs
    ensures var r := Sifted(m, h, seen, rest, chosen); var i := Cursor(seen, chosen); var x := rest[0];
      && h in r && |r[h]| == i + |rest| && r[h][i] == x && (seen + [x]) + rest[1..] == xs
      && Sifted(m, h, seen + [x], rest[1..], chosen) == (if x in chosen then Extracted(r, h, i) else r)
      && Cursor(seen + [x], chosen) == if x in chosen then i else i + 1
  {
    assert h !in seen && rest[0] in xs by {
      assert forall y | y in seen :: y in seen + rest;
    }
    ShiftOne(seen, rest);
    SiftedPlace(m, h, seen, rest, chosen);
    SiftedTurn(m, h, seen, rest, chosen);
    UnchosenStep(seen, rest[0], chosen);
  }

  /** Unchosen keeps exactly the elements that are not chosen. */
  lemma {:induction false} UnchosenMeans<T>(xs: seq<T>, chosen: set<T>)
    ensures forall x :: x in Unchosen(xs, chosen) <==> x in xs && x !in chosen
  {
    if xs != [] {
      var n := |xs| - 1;
      UnchosenMeans(xs[..n], chosen);
      assert xs == xs[..n] + [xs[n]];
    }
  }

  lemma {:induction false} UnchosenPrefix<T>(xs: seq<T>, chosen: set<T>, k: nat)
    requires k <= |xs|
    ensures Unchosen(xs[..k], chosen) <= Unchosen(xs, chosen)
  {
    var n := |xs| - 1;
    if k == |xs| {
      assert xs[..k] == xs;
    } else {
      UnchosenPrefix(xs[..n], chosen, k);
      assert xs[..n][..k] == xs[..k];
    }
  }

  /** It keeps them in their order: each one comes after those kept before it. */
  lemma UnchosenInOrder<T>(xs: seq<T>, chosen: set<T>, k: nat)
    requires k < |xs|
    ensures var before := Unchosen(xs[..k], chosen);
      Unchosen(xs[..k + 1], chosen) == (if xs[k] in chosen then before else before + [xs[k]])
      && Unchosen(xs[..k + 1], chosen) <= Unchosen(xs, chosen)
  {
    UnchosenPrefix(xs, chosen, k + 1);
    UnchosenStep(xs[..k], xs[k], chosen);
    assert xs[..k] + [xs[k]] == xs[..k + 1];
  }

  /** What a whole traversal leaves: the unchosen elements in the list, each chosen one alone, and every
      other ring as it was. */
  lemma SiftedMeans<T>(m: Family<T>, h: T, xs: seq<T>, chosen: set<T>)
    requires h in m && h !in xs
    ensures var r := Sifted(m, h, xs, [], chosen);
      && |r[h]| > 0 && r[h][0] == h && Contents(r, h) == Unchosen(xs, chosen)
      && (forall x | x in xs && x in chosen :: x in r && r[x] == [x])
      && (forall c | c in m && c != h && c !in xs :: c in r && r[c] == m[c])
      && (forall c | c in r :: c in m || (c in xs && c in chosen))
  {
  }

  lemma UnchosenStep<T>(seen: seq<T>, x: T, chosen: set<T>)
    ensures Unchosen(seen + [x], chosen) == Unchosen(seen, chosen) + if x in chosen then [] else [x]
  {
    assert (seen + [x])[..|seen|] == seen;
  }

  lemma SinglesStep<T>(seen: seq<T>, x: T, chosen: set<T>)
    ensures Singles(seen + [x], chosen)
         == if x in chosen then Singles(seen, chosen)[x := [x]] else Singles(seen, chosen)
  {
  }

  lemma Reshuffled<T>(m: Family<T>, h: T, s: seq<T>, t: seq<T>, extra: Family<T>, x: T, v: seq<T>)
    requires h !in extra && x != h
    ensures ((m[h := s] + extra)[h := t])[x := v] == m[h := t] + extra[x := v]
  {
  }

  ghost function Backwards<T>(s: seq<T>): (r: seq<T>)
    ensures |r| == |s|
  {
    if s == [] then [] else Backwards(s[1..]) + [s[0]]
  }

  lemma {:induction false} BackwardsAt<T>(s: seq<T>, k: nat)
    requires k < |s|
    ensures Backwards(s)[k] == s[|s| - 1 - k]
  {
    if k < |s| - 1 {
      BackwardsAt(s[1..], k);
    }
  }

  lemma BackwardsFront<T>(x: T, s: seq<T>)
    ensures Backwards([x] + s) == Backwards(s) + [x]
  {
    assert ([x] + s)[1..] == s;
  }

  lemma NothingBackwards<T>()
    ensures Backwards<T>([]) == []
  {
  }

  /** List h after a backward traversal went over its last elements, seen, on its way down rest. */
  ghost function SiftedBack<T>(m: Family<T>, h: T, rest: seq<T>, seen: seq<T>, chosen: set<T>): Family<T> {
    WithList(m, h, rest + Unchosen(seen, chosen)) + Singles(seen, chosen)
  }

  lemma {:induction false} UnchosenFront<T>(x: T, seen: seq<T>, chosen: set<T>)
    ensures Unchosen([x] + seen, chosen) == (if x in chosen then [] else [x]) + Unchosen(seen, chosen)
  {
    if seen == [] {
      UnchosenStep([], x, chosen);
      assert [] + [x] == [x] + seen;
    } else {
      var n := |seen| - 1;
      assert seen == seen[..n] + [seen[n]];
      UnchosenFront(x, seen[..n], chosen);
      UnchosenStep(seen[..n], seen[n], chosen);
      UnchosenStep([x] + seen[..n], seen[n], chosen);
      hide Unchosen;
      assert [x] + seen == ([x] + seen[..n]) + [seen[n]];
    }
  }

  lemma SinglesFront<T>(x: T, seen: seq<T>, chosen: set<T>)
    ensures Singles([x] + seen, chosen)
         == if x in chosen then Singles(seen, chosen)[x := [x]] else Singles(seen, chosen)
  {
  }

  lemma SiftedBackEnds<T>(m: Family<T>, h: T, chosen: set<T>)
    requires h in m && |m[h]| > 0 && m[h][0] == h
    ensures SiftedBack(m, h, m[h][1..], [], chosen) == m
    ensures SiftedBack(m, h, [], m[h][1..], chosen) == Sifted(m, h, m[h][1..], [], chosen)
  {
    var xs := m[h][1..];
    assert m[h] == [h] + (xs + []);
    assert [] + Unchosen(xs, chosen) == Unchosen(xs, chosen) + [];
  }

  /** One turn of a backward traversal of xs, as it shows in the rings. */
  lemma SiftedBackNext<T>(m: Family<T>, h: T, xs: seq<T>, rest: seq<T>, seen: seq<T>, chosen: set<T>)
    requires rest != [] && rest + seen == xs && h !in xs
    ensures var r := SiftedBack(m, h, rest, seen, chosen); var i := |rest|; var x := rest[i - 1];
      && h in r && |r[h]| > i && r[h][0] == h && r[h][i] == x && rest[..i - 1] + ([x] + seen) == xs
      && SiftedBack(m, h, rest[..i - 1], [x] + seen, chosen) == (if x in chosen then Extracted(r, h, i) else r)
  {
    assert rest == rest[..|rest| - 1] + [rest[|rest| - 1]];
    var i, kept, extra := |rest|, Unchosen(seen, chosen), Singles(seen, chosen);
    var x, front := rest[i - 1], rest[..i - 1];
    BackSplit(xs, front, x, seen);
    UnchosenFront(x, seen, chosen);
    SinglesFront(x, seen, chosen);
    SinglesKeys(seen, chosen, h);
    BackKeep(h, front, x, kept);
    hide Unchosen, Singles, DropAt;
    if x in chosen {
      assert [] + kept == kept;
      Reshuffled(m, h, [h] + (rest + kept), [h] + (front + kept), extra, x, [x]);
    }
  }

  lemma BackSplit<T>(xs: seq<T>, front: seq<T>, x: T, seen: seq<T>)
    requires front + [x] + seen == xs
    ensures front + ([x] + seen) == xs && x in xs && forall y | y in seen :: y in xs
  {
    assert forall y | y in seen :: y in front + [x] + seen;
    assert x == xs[|front|];
  }

  lemma BackKeep<T>(h: T, front: seq<T>, x: T, kept: seq<T>)
    ensures var s, i := [h] + ((front + [x]) + kept), |front| + 1;
      && s[0] == h && s[i] == x && DropAt(s, i) == [h] + (front + kept)
      && s == [h] + (front + ([x] + kept))
  {
  }

  lemma SinglesKeys<T>(seen: seq<T>, chosen: set<T>, h: T)
    requires h !in seen
    ensures h !in Singles(seen, chosen)
  {
  }

  // ----- exchanging two elements -----

  /** Node i of ring h and node j of ring k exchange their places. */
  ghost function Switched<T>(m: Family<T>, h: T, i: int, k: T, j: int): Family<T>
    requires h in m && k in m && 0 <= i < |m[h]| && 0 <= j < |m[k]|
  {
    var x, y := m[h][i], m[k][j];
    if h == k then m[h := m[h][i := y][j := x]] else m[h := m[h][i := y]][k := m[k][j := x]]
  }

  /** The two nodes have changed places, and nothing else has. */
  lemma SwitchedMeans<T>(m: Family<T>, h: T, i: int, k: T, j: int)
    requires h in m && k in m && 0 <= i < |m[h]| && 0 <= j < |m[k]|
    ensures var r := Switched(m, h, i, k, j);
      && r.Keys == m.Keys && r[h][i] == m[k][j] && r[k][j] == m[h][i]
      && forall c, n | c in m && 0 <= n < |m[c]| && (c != h || n != i) && (c != k || n != j) ::
           |r[c]| == |m[c]| && r[c][n] == m[c][n]
  {
  }

  lemma SwitchedTwice<T>(m: Family<T>, h: T, i: int, k: T, j: int)
    requires h in m && k in m && 0 <= i < |m[h]| && 0 <= j < |m[k]|
    ensures var r := Switched(m, h, i, k, j);
      && h in r && k in r && |r[h]| == |m[h]| && |r[k]| == |m[k]|
      && r[h][i] == m[k][j] && r[k][j] == m[h][i]
      && Switched(r, h, i, k, j) == m
  {
    var r := Switched(m, h, i, k, j);
    if h == k {
      assert r[h][i := m[h][i]][j := m[h][j]] == m[h];
    } else {
      assert r[h][i := m[h][i]] == m[h] && r[k][j := m[k][j]] == m[k];
    }
  }

  lemma SwitchNeighbours<T>(s: seq<T>, i: int)
    requires 0 <= i && i + 1 < |s|
    ensures PutAt(DropAt(s, i), i + 1, s[i]) == s[i := s[i + 1]][i + 1 := s[i]]
    ensures PutAt(DropAt(s, i + 1), i, s[i + 1]) == s[i := s[i + 1]][i + 1 := s[i]]
  {
  }

  lemma DroppedTwice<T>(s: seq<T>, i: int, j: int)
    requires 0 <= i < j < |s|
    ensures DropAt(DropAt(s, i), j - 1) == DropAt(DropAt(s, j), i) == s[..i] + s[i + 1..j] + s[j + 1..]
    ensures DropAt(s, i)[j - 1] == s[j] && DropAt(s, j)[i] == s[i]
    ensures i > 0 ==> DropAt(s, i)[0] == DropAt(s, j)[0] == s[0]
  {
  }

  lemma SwitchDistant<T>(s: seq<T>, i: int, j: int)
    requires 1 <= i < |s| && 1 <= j < |s| && (i + 1 < j || j + 1 < i)
    ensures var d := if i < j then j - 1 else j; var s2 := DropAt(DropAt(s, i), d);
      && DropAt(s, i)[d] == s[j] && s2[d - 1] == s[j - 1] && DropAt(s, i)[0] == s2[0] == s[0]
      && var s3 := PutAt(s2, d, s[i]);
         && s3[i - 1] == s[i - 1] && s3[0] == s[0]
         && PutAt(s3, i, s[j]) == s[i := s[j]][j := s[i]]
  {
    hide DropAt, PutAt;
    if i < j {
      DroppedTwice(s, i, j);
      assert s == s[..i] + [s[i]] + s[i + 1..j] + [s[j]] + s[j + 1..];
      SwitchUp(s[..i], s[i], s[i + 1..j], s[j], s[j + 1..]);
    } else {
      DroppedTwice(s, j, i);
      assert s == s[..j] + [s[j]] + s[j + 1..i] + [s[i]] + s[i + 1..];
      SwitchUp(s[..j], s[j], s[j + 1..i], s[i], s[i + 1..]);
    }
  }

  lemma PutBetween<T>(a: seq<T>, x: T, c: seq<T>)
    ensures PutAt(a + c, |a|, x) == a + [x] + c
  {
    assert (a + c)[..|a|] == a && (a + c)[|a|..] == c;
  }

  lemma Regroup<T>(a: seq<T>, b: seq<T>, c: seq<T>)
    ensures a + b + c == a + (b + c)
  {
  }

  lemma SwitchUp<T>(a: seq<T>, x: T, b: seq<T>, y: T, c: seq<T>)
    requires a != [] && b != []
    ensures var s, s2, i, j := a + [x] + b + [y] + c, a + b + c, |a|, |a| + 1 + |b|;
      && PutAt(s2, j - 1, x) == a + b + [x] + c && PutAt(s2, i, y) == a + [y] + b + c
      && PutAt(a + b + [x] + c, i, y) == PutAt(a + [y] + b + c, j, x) == s[i := y][j := x] == s[j := x][i := y]
  {
    var both := a + [y] + b + [x] + c;
    hide PutAt;
    PutBetween(a + b, x, c);
    PutBetween(a, y, b + c);
    Regroup(a, b, c);
    Regroup(a + [y], b, c);
    PutBetween(a, y, b + [x] + c);
    assert a + b + [x] + c == a + (b + [x] + c);
    assert a + [y] + (b + [x] + c) == both;
    PutBetween(a + [y] + b, x, c);
    SwitchEnds(a, x, b, y, c);
  }

  lemma SwitchEnds<T>(a: seq<T>, x: T, b: seq<T>, y: T, c: seq<T>)
    ensures var s, i, j := a + [x] + b + [y] + c, |a|, |a| + 1 + |b|;
      s[i := y][j := x] == s[j := x][i := y] == a + [y] + b + [x] + c
  {
  }

  lemma Redrop<T>(s: seq<T>, i: int, x: T)
    requires 1 <= i < |s|
    ensures PutAt(DropAt(s, i), i, x) == s[i := x]
    ensures DropAt(s, i)[i - 1] == s[i - 1] && DropAt(s, i)[0] == s[0]
  {
  }

  ghost predicate CanSwitch<T>(m: Family<T>, h: T, i: int, k: T, j: int) {
    && h in m && k in m && 1 <= i < |m[h]| && 1 <= j < |m[k]|
    && m[h][i] !in m && m[k][j] !in m && m[h][i] != m[k][j]
  }

  /** Take a node out and put it back right after its old successor, or right before its old predecessor. */
  lemma SwitchedAdjacent<T>(m: Family<T>, h: T, i: int, j: int)
    requires CanSwitch(m, h, i, h, j)
    ensures var x, r := m[h][i], Extracted(m, h, i);
      && x in r && r[x] == [x] && h in r && |r[h]| == |m[h]| - 1 && r[h][0] == m[h][0]
      && (i + 1 == j ==> At(r, h, i, m[h][j]) && MovedAfter(r, x, 0, h, i) == Switched(m, h, i, h, j))
      && (j + 1 == i ==> At(r, h, j, m[h][j]) && MovedBefore(r, x, 0, h, j) == Switched(m, h, i, h, j))
  {
    var s, x := m[h], m[h][i];
    assert Extracted(m, h, i) - {x} == m[h := DropAt(s, i)];
    if i + 1 == j {
      SwitchNeighbours(s, i);
    } else if j + 1 == i {
      SwitchNeighbours(s, j);
      assert s[j := s[i]][i := s[j]] == s[i := s[j]][j := s[i]];
    }
  }

  /** Taking out both nodes, then putting each right after the other's old predecessor, switches them. */
  ghost predicate DistantPlan<T>(m: Family<T>, h: T, i: int, k: T, j: int)
    requires CanSwitch(m, h, i, k, j) && (h == k ==> i + 1 < j || j + 1 < i)
  {
    var x, y, d, m1 := m[h][i], m[k][j], Shift(h, i, k, j), Extracted(m, h, i);
    && 1 <= d && At(m1, k, d, y) && At(m1, k, 0, m[k][0])
    && var m2 := Extracted(m1, k, d);
       && x in m2 && m2[x] == [x] && At(m2, k, d - 1, m[k][j - 1]) && At(m2, k, 0, m[k][0])
       && var m3 := MovedAfter(m2, x, 0, k, d - 1);
          && y in m3 && m3[y] == [y] && At(m3, h, i - 1, m[h][i - 1]) && At(m3, h, 0, m[h][0])
          && MovedAfter(m3, y, 0, h, i - 1) == Switched(m, h, i, k, j)
  }

  lemma SwitchedDistant<T>(m: Family<T>, h: T, i: int, k: T, j: int)
    requires CanSwitch(m, h, i, k, j) && (h == k ==> i + 1 < j || j + 1 < i)
    ensures DistantPlan(m, h, i, k, j)
  {
    if h == k {
      SwitchedDistantOne(m, h, i, j);
    } else {
      SwitchedDistantTwo(m, h, i, k, j);
    }
  }

  lemma Unsingle<K, V>(m: map<K, V>, x: K, v: V)
    requires x !in m
    ensures m[x := v] - {x} == m
  {
  }

  lemma Overwritten<K, V>(m: map<K, V>, h: K, s: V, x: K, v: V, t: V)
    requires h != x
    ensures m[h := s][x := v][h := t] == m[h := t][x := v]
    ensures m[x := v][h := s] == m[h := s][x := v]
  {
  }

  lemma OutTwice<T>(m: Family<T>, h: T, i: int, j: int)
    requires CanSwitch(m, h, i, h, j) && (i + 1 < j || j + 1 < i)
    ensures var d, s1 := Shift(h, i, h, j), DropAt(m[h], i);
      && 1 <= d < |s1| && s1[d] == m[h][j]
      && Extracted(m, h, i) == m[h := s1][m[h][i] := [m[h][i]]]
      && Extracted(Extracted(m, h, i), h, d)
         == m[h := DropAt(s1, d)][m[h][j] := [m[h][j]]][m[h][i] := [m[h][i]]]
  {
    var s, x, y, d := m[h], m[h][i], m[h][j], Shift(h, i, h, j);
    SwitchDistant(s, i, j);
    hide DropAt, PutAt;
    var s1 := DropAt(s, i);
    var s2 := DropAt(s1, d);
    Overwritten(m, h, s1, x, [x], s2);
    Overwritten(m[h := s2], x, [x], y, [y], [x]);
  }

  lemma BackTwice<T>(m: Family<T>, h: T, i: int, j: int, s2: seq<T>, d: int)
    requires CanSwitch(m, h, i, h, j) && 1 <= d <= |s2| && i <= |s2| + 1
    requires PutAt(PutAt(s2, d, m[h][i]), i, m[h][j]) == m[h][i := m[h][j]][j := m[h][i]]
    ensures var x, y, s3 := m[h][i], m[h][j], PutAt(s2, d, m[h][i]);
      && MovedAfter(m[h := s2][y := [y]][x := [x]], x, 0, h, d - 1) == m[h := s3][y := [y]]
      && MovedAfter(m[h := s3][y := [y]], y, 0, h, i - 1) == Switched(m, h, i, h, j)
  {
    hide PutAt, MovedAfter, Switched;
    var x, y, s3 := m[h][i], m[h][j], PutAt(s2, d, m[h][i]);
    PutBackBeside(m, h, s2, y, x, d - 1);
    PutBackIs(m[h := s3], y, h, i - 1);
    Rewritten(m, h, s3, PutAt(s3, i, y));
    SwitchedIs(m, h, i, j);
  }

  /** The same beside another loose element. */
  lemma PutBackBeside<T>(m: Family<T>, h: T, s: seq<T>, y: T, x: T, k: int)
    requires h in m && x !in m && x != y && x != h && y != h && 0 <= k < |s|
    ensures MovedAfter(m[h := s][y := [y]][x := [x]], x, 0, h, k) == m[h := PutAt(s, k + 1, x)][y := [y]]
  {
    hide PutAt, MovedAfter;
    PutBackIs(m[h := s][y := [y]], x, h, k);
    Overwritten(m, h, s, y, [y], PutAt(s, k + 1, x));
  }

  lemma SwitchedIs<T>(m: Family<T>, h: T, i: int, j: int)
    requires h in m && 0 <= i < |m[h]| && 0 <= j < |m[h]|
    ensures Switched(m, h, i, h, j) == m[h := m[h][i := m[h][j]][j := m[h][i]]]
  {
  }

  lemma SwitchedDistantOne<T>(m: Family<T>, h: T, i: int, j: int)
    requires CanSwitch(m, h, i, h, j) && (i + 1 < j || j + 1 < i)
    ensures DistantPlan(m, h, i, h, j)
  {
    hide DropAt, PutAt, MovedAfter, Extracted, Switched;
    var d := Shift(h, i, h, j);
    OutTwice(m, h, i, j);
    SwitchDistant(m[h], i, j);
    BackTwice(m, h, i, j, DropAt(DropAt(m[h], i), d), d);
  }

  lemma Rewritten<K, V>(m: map<K, V>, h: K, s: V, t: V)
    ensures m[h := s][h := t] == m[h := t]
  {
  }

  /** A loose element put back after node k of ring h. */
  lemma PutBackIs<T>(n: Family<T>, x: T, h: T, k: int)
    requires x !in n && h in n && 0 <= k < |n[h]|
    ensures MovedAfter(n[x := [x]], x, 0, h, k) == n[h := PutAt(n[h], k + 1, x)]
  {
    Unsingle(n, x, [x]);
  }

  lemma SwitchedDistantTwo<T>(m: Family<T>, h: T, i: int, k: T, j: int)
    requires CanSwitch(m, h, i, k, j) && h != k
    ensures DistantPlan(m, h, i, k, j)
  {
    var x, y := m[h][i], m[k][j];
    hide DropAt, PutAt;
    var m2 := Extracted(Extracted(m, h, i), k, j);
    Redrop(m[h], i, y);
    Redrop(m[k], j, x);
    var n := m[h := DropAt(m[h], i)];
    Overwritten(m, h, DropAt(m[h], i), x, [x], DropAt(m[h], i));
    Overwritten(n, k, DropAt(m[k], j), x, [x], DropAt(m[k], j));
    Overwritten(n[k := DropAt(m[k], j)], x, [x], y, [y], [x]);
    assert m2 == n[k := DropAt(m[k], j)][y := [y]][x := [x]];
    Unsingle(n[k := DropAt(m[k], j)][y := [y]], x, [x]);
    Overwritten(n, k, DropAt(m[k], j), y, [y], m[k][j := x]);
    assert MovedAfter(m2, x, 0, k, j - 1) == n[k := m[k][j := x]][y := [y]];
    Unsingle(n[k := m[k][j := x]], y, [y]);
  }

  // ----- the nodes of a family -----

  ghost function Elems<T>(s: seq<T>): set<T> {
    set x | x in s
  }

  ghost function ElemsAt<T>(m: Family<T>, a: T): set<T> {
    if a in m then Elems(m[a]) else {}
  }

  /** Two families that differ on three rings at most have the same nodes if those rings have. */
  lemma SameNodes<T>(m: Family<T>, r: Family<T>, a: T, b: T, c: T)
    requires m - {a, b, c} == r - {a, b, c}
    ensures Nodes(m) == Nodes(m - {a, b, c}) + ElemsAt(m, a) + ElemsAt(m, b) + ElemsAt(m, c)
    ensures Nodes(r) == Nodes(m - {a, b, c}) + ElemsAt(r, a) + ElemsAt(r, b) + ElemsAt(r, c)
  {
    NodesSplitThree(m, a, b, c);
    NodesSplitThree(r, a, b, c);
  }

  lemma NodesSplitThree<T>(m: Family<T>, a: T, b: T, c: T)
    ensures Nodes(m) == Nodes(m - {a, b, c}) + ElemsAt(m, a) + ElemsAt(m, b) + ElemsAt(m, c)
  {
    forall x | x in Nodes(m)
      ensures x in Nodes(m - {a, b, c}) + ElemsAt(m, a) + ElemsAt(m, b) + ElemsAt(m, c)
    {
      var k :| k in m && x in m[k];
      if k !in {a, b, c} {
        assert k in m - {a, b, c};
      }
    }
  }

  lemma ElemsConcat<T>(s: seq<T>, t: seq<T>)
    ensures Elems(s + t) == Elems(s) + Elems(t)
  {
  }

  lemma ElemsSingle<T>(x: T)
    ensures Elems([x]) == {x}
  {
  }

  lemma ElemsSwap<T>(s: seq<T>, i: int, j: int)
    requires 0 <= i < |s| && 0 <= j < |s|
    ensures Elems(s[i := s[j]][j := s[i]]) == Elems(s)
  {
    var t := s[i := s[j]][j := s[i]];
    forall x | x in s ensures x in t {
      var k :| 0 <= k < |s| && s[k] == x;
      assert t[if k == i then j else if k == j then i else k] == x;
    }
  }

  lemma ElemsDropPut<T>(s: seq<T>, i: int, x: T)
    requires 0 <= i <= |s|
    ensures Elems(PutAt(s, i, x)) == Elems(s) + {x}
    ensures i < |s| ==> Elems(DropAt(s, i)) + {s[i]} == Elems(s)
    ensures i < |s| ==> Elems(s[i := x]) == Elems(DropAt(s, i)) + {x}
  {
    var p := PutAt(s, i, x);
    forall y | y in s ensures y in p {
      var k :| 0 <= k < |s| && s[k] == y;
      assert p[if k < i then k else k + 1] == y;
    }
    assert p[i] == x;
    if i < |s| {
      var d, u := DropAt(s, i), s[i := x];
      forall y | y in s && y != s[i] ensures y in d {
        var k :| 0 <= k < |s| && s[k] == y;
        assert d[if k < i then k else k - 1] == y;
      }
      forall y | y in d ensures y in u {
        var k :| 0 <= k < |d| && d[k] == y;
        assert u[if k < i then k else k + 1] == y;
      }
      forall y | y in u && y != x ensures y in d {
        var k :| 0 <= k < |u| && u[k] == y;
        assert d[if k < i then k else k - 1] == y;
      }
      assert u[i] == x;
    }
  }

  lemma RotatedNodes<T>(m: Family<T>, h: T)
    requires h in m && |m[h]| > 0 && m[h][0] == h
    ensures Nodes(WithList(m, h, Rotated(Contents(m, h)))) == Nodes(m)
  {
    hide Nodes, Elems;
    var xs := Contents(m, h);
    SameNodes(m, WithList(m, h, Rotated(xs)), h, h, h);
    assert m[h] == [h] + xs;
    if xs != [] {
      ElemsConcat([xs[0]], xs[1..]);
      ElemsConcat(xs[1..], [xs[0]]);
      assert xs == [xs[0]] + xs[1..];
    }
    ElemsConcat([h], xs);
    ElemsConcat([h], Rotated(xs));
  }

  lemma SwitchedNodes<T>(m: Family<T>, h: T, i: int, k: T, j: int)
    requires h in m && k in m && 0 <= i < |m[h]| && 0 <= j < |m[k]|
    ensures Nodes(Switched(m, h, i, k, j)) == Nodes(m)
    ensures i > 0 && j > 0 ==> Switched(m, h, i, k, j)[h][0] == m[h][0] && Switched(m, h, i, k, j)[k][0] == m[k][0]
  {
    hide Nodes, Elems, DropAt, PutAt;
    SameNodes(m, Switched(m, h, i, k, j), h, k, k);
    ElemsDropPut(m[h], i, m[k][j]);
    ElemsDropPut(m[k], j, m[h][i]);
    if h == k {
      ElemsSwap(m[h], i, j);
    }
  }

  lemma ExchangedNodes<T>(m: Family<T>, a: T, i: int, n: T)
    requires a in m && 0 < i < |m[a]| && m[a][i] !in m && n in m && m[n] == [n] && n != a
    ensures Nodes(Exchanged(m, a, i, n)) == Nodes(m)
  {
    hide Nodes, Elems, DropAt, PutAt;
    var e := m[a][i];
    var r := m - {n};
    assert r[a := m[a][i := n]] - {a, n, e} == m - {a, n, e};
    var x := Exchanged(m, a, i, n);
    assert x[a] == m[a][i := n] && x[e] == [e] && n !in x;
    assert x - {a, n, e} == m - {a, n, e};
    ElemsSingle(e);
    ElemsSingle(n);
    ElemsDropPut(m[a], i, n);
    SameNodes(m, x, a, n, e);
  }

  lemma HeadReplacedNodes<T>(m: Family<T>, a: T, n: T)
    requires a in m && |m[a]| > 1 && m[a][0] == a && n in m && m[n] == [n] && n != a
    ensures Nodes(ReplacedBy(m, a, 0, n)) == Nodes(m)
  {
    hide Nodes, Elems;
    ElemsConcat([a], m[a][1..]);
    ElemsConcat([n], m[a][1..]);
    assert m[a] == [a] + m[a][1..];
    SameNodes(m, ReplacedBy(m, a, 0, n), a, n, n);
  }
}
