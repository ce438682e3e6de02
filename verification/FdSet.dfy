/** The descriptor bitmaps (fd_set) the router works on: a fixed array of 64-bit words. */
module FdSet {

  const WORD_BITS: nat := 64
  const WORDS: nat := 16
  const SETSIZE: nat := WORDS * WORD_BITS

  /** A machine word, least significant bit first. */
  type Word = w: seq<bool> | |w| == WORD_BITS witness seq(WORD_BITS, _ => false)

  /** One step of >>= on a signed word: the sign bit stays. */
  function ShiftedRight(m: Word): Word {
    m[1..] + [m[WORD_BITS - 1]]
  }

  /** The descriptors whose bit is set. */
  ghost function Bits(ws: seq<Word>): set<int> {
    set s | 0 <= s < WORD_BITS * |ws| && ws[s / WORD_BITS][s % WORD_BITS]
  }

  lemma BitsInRange(ws: seq<Word>)
    ensures forall s | s in Bits(ws) :: 0 <= s < WORD_BITS * |ws|
  {
  }

  lemma BitsOfWord(ws: seq<Word>, i: nat, j: nat)
    requires i < |ws| && j < WORD_BITS
    ensures WORD_BITS * i + j in Bits(ws) <==> ws[i][j]
  {
    var s := WORD_BITS * i + j;
    assert s / WORD_BITS == i && s % WORD_BITS == j;
  }

  predicate IsSet(fds: array<Word>, s: int): (r: bool)
    requires 0 <= s < WORD_BITS * fds.Length
    reads fds
    ensures r <==> s in Bits(fds[..])
  {
    fds[s / WORD_BITS][s % WORD_BITS]
  }

  method SetBit(fds: array<Word>, s: int)
    requires 0 <= s < WORD_BITS * fds.Length
    modifies fds
    ensures Bits(fds[..]) == old(Bits(fds[..])) + {s}
  {
    fds[s / WORD_BITS] := fds[s / WORD_BITS][s % WORD_BITS := true];
  }

  method ClearBit(fds: array<Word>, s: int)
    requires 0 <= s < WORD_BITS * fds.Length
    modifies fds
    ensures Bits(fds[..]) == old(Bits(fds[..])) - {s}
  {
    fds[s / WORD_BITS] := fds[s / WORD_BITS][s % WORD_BITS := false];
  }

  method Zero(fds: array<Word>)
    modifies fds
    ensures Bits(fds[..]) == {}
  {
    var none: Word := seq(WORD_BITS, _ => false);
    for i := 0 to fds.Length
      invariant forall k | 0 <= k < i :: fds[k] == none
    {
      fds[i] := none;
    }
  }

  /** Keep only the bits of a set of descriptors, as pselect does with the ones that are not ready. */
  method Narrow(fds: array<Word>, keep: set<int>)
    modifies fds
    ensures Bits(fds[..]) == old(Bits(fds[..])) * keep
  {
    for i := 0 to fds.Length
      invariant forall k, j | 0 <= k < i && 0 <= j < WORD_BITS ::
                  fds[k][j] == (old(fds[k])[j] && WORD_BITS * k + j in keep)
      invariant forall k | i <= k < fds.Length :: fds[k] == old(fds[k])
    {
      var w := fds[i];
      fds[i] := seq(WORD_BITS, j requires 0 <= j < WORD_BITS => w[j] && WORD_BITS * i + j in keep);
    }
    forall s | 0 <= s < WORD_BITS * fds.Length
      ensures s in Bits(fds[..]) <==> s in old(Bits(fds[..])) && s in keep
    {
      assert fds[s / WORD_BITS][s % WORD_BITS] == (old(fds[s / WORD_BITS])[s % WORD_BITS] && s in keep);
    }
  }

  /** The members of a set of descriptors below n, in ascending order. */
  ghost function Ascending(fds: set<int>, n: nat): (r: seq<int>)
    ensures forall k | 0 <= k < |r| :: 0 <= r[k] < n
  {
    if n == 0 then []
    else if n - 1 in fds then Ascending(fds, n - 1) + [n - 1]
    else Ascending(fds, n - 1)
  }

  ghost function Below(fds: set<int>, n: nat): set<int> {
    set s | s in fds && 0 <= s < n
  }

  predicate Increasing(r: seq<int>) {
    forall j, k | 0 <= j < k < |r| :: r[j] < r[k]
  }

  lemma IncreasingJoin(front: seq<int>, x: int)
    requires Increasing(front) && forall k | 0 <= k < |front| :: front[k] < x
    ensures Increasing(front + [x]) && forall s :: s in front + [x] <==> s in front || s == x
  {
  }

  /** Ascending is what its name says: sorted without repetition, and complete. */
  lemma {:induction false} AscendingSorts(fds: set<int>, n: nat)
    ensures Increasing(Ascending(fds, n))
    ensures forall s :: s in Ascending(fds, n) <==> s in fds && 0 <= s < n
  {
    if n > 0 {
      hide Increasing;
      AscendingSorts(fds, n - 1);
      if n - 1 in fds {
        IncreasingJoin(Ascending(fds, n - 1), n - 1);
      }
    } else {
      assert Ascending(fds, n) == [];
    }
  }

  /** It is as long as the set has members below n. */
  lemma {:induction false} AscendingCounts(fds: set<int>, n: nat)
    ensures |Ascending(fds, n)| == |Below(fds, n)|
  {
    if n > 0 {
      AscendingCounts(fds, n - 1);
      var rest := Below(fds, n - 1);
      assert Below(fds, n) == if n - 1 in fds then rest + {n - 1} else rest;
    }
  }

  /** Only the members below n matter, and nothing is added where there are none. */
  lemma {:induction false} AscendingOf(fds: set<int>, others: set<int>, m: nat, n: nat)
    requires m <= n
    requires forall s | 0 <= s < n :: s in fds <==> s in others && s < m
    ensures Ascending(fds, n) == Ascending(others, m)
  {
    if n > 0 {
      if m == n {
        AscendingOf(fds, others, m - 1, n - 1);
      } else {
        AscendingOf(fds, others, m, n - 1);
      }
    }
  }

  /** The members of a set from first on, as far as a word reaches, are its set bits. */
  ghost predicate ShowsBits(bits: set<int>, first: nat, word: Word) {
    forall j {:trigger word[j]} | 0 <= j < WORD_BITS :: first + j in bits <==> word[j]
  }

  lemma BitsOfWords(ws: seq<Word>, i: nat)
    requires i < |ws|
    ensures ShowsBits(Bits(ws), WORD_BITS * i, ws[i])
  {
    hide Bits;
    var word: Word := ws[i];
    forall j {:trigger word[j]} | 0 <= j < WORD_BITS ensures WORD_BITS * i + j in Bits(ws) <==> word[j] {
      BitsOfWord(ws, i, j);
    }
  }

  lemma NoneBetween(fds: set<int>, m: nat, n: nat)
    requires m <= n && forall s | m <= s < n :: s !in fds
    ensures Ascending(fds, n) == Ascending(fds, m)
  {
    AscendingOf(fds, fds, m, n);
  }

  lemma EmptyWord(ws: seq<Word>, i: nat)
    requires i < |ws| && true !in ws[i]
    ensures Ascending(Bits(ws), WORD_BITS * (i + 1)) == Ascending(Bits(ws), WORD_BITS * i)
  {
    hide Bits, Ascending;
    forall s | WORD_BITS * i <= s < WORD_BITS * (i + 1) ensures s !in Bits(ws) {
      BitsOfWord(ws, i, s - WORD_BITS * i);
    }
    NoneBetween(Bits(ws), WORD_BITS * i, WORD_BITS * (i + 1));
  }

  /** Copy the words a bound of nfds covers; the words above are left as they are. */
  method Copy(nfds: nat, from: array<Word>, to: array<Word>)
    requires from.Length == to.Length && from != to && nfds / WORD_BITS < to.Length
    modifies to
    ensures var n := WORD_BITS * (nfds / WORD_BITS + 1);
      && (forall s | 0 <= s < n :: s in Bits(to[..]) <==> s in Bits(from[..]))
      && (forall s | n <= s :: s in Bits(to[..]) <==> s in old(Bits(to[..])))
  {
    var iMax := nfds / WORD_BITS;
    var i := 0;
    while i <= iMax
      invariant 0 <= i <= iMax + 1
      invariant forall k | 0 <= k < i :: to[k] == from[k]
      invariant forall k | i <= k < to.Length :: to[k] == old(to[k])
    {
      to[i] := from[i];
      i := i + 1;
    }
  }

  lemma AscendingStep(bits: set<int>, n: nat)
    ensures Ascending(bits, n + 1) == if n in bits then Ascending(bits, n) + [n] else Ascending(bits, n)
  {
  }

  lemma Append(a: seq<int>, b: seq<int>, x: int)
    ensures (a + b) + [x] == a + (b + [x])
  {
  }

  /** List the bits of one word, shifting it out bit by bit; first is the descriptor of its lowest bit. */
  method ExtractWord(word: Word, first: nat, ghost bits: set<int>) returns (list: seq<int>)
    requires ShowsBits(bits, first, word)
    ensures Ascending(bits, first + WORD_BITS) == Ascending(bits, first) + list
  {
    hide Ascending, ShowsBits, ShiftedRight;
    list := [];
    var m, sockId := word, first;
    ghost var below := Ascending(bits, first);
    for j := 0 to WORD_BITS
      invariant sockId == first + j
      invariant m[..WORD_BITS - j] == word[j..]
      invariant Ascending(bits, sockId) == below + list
    {
      ShiftDrops(m, word, j);
      AscendingStep(bits, sockId);
      BitShown(bits, first, word, j);
      if m[0] {
        Append(below, list, sockId);
        list := list + [sockId];
      }
      m, sockId := ShiftedRight(m), sockId + 1;
    }
  }

  lemma ShiftDrops(m: Word, word: Word, j: nat)
    requires j < WORD_BITS && m[..WORD_BITS - j] == word[j..]
    ensures m[0] == word[j] && ShiftedRight(m)[..WORD_BITS - (j + 1)] == word[j + 1..]
  {
    assert m[0] == m[..WORD_BITS - j][0];
    assert ShiftedRight(m)[..WORD_BITS - (j + 1)] == m[..WORD_BITS - j][1..];
  }

  lemma BitShown(bits: set<int>, first: nat, word: Word, j: nat)
    requires ShowsBits(bits, first, word) && j < WORD_BITS
    ensures first + j in bits <==> word[j]
  {
  }

  /** List the bits set in the words a bound of nfds covers. */
  method ExtractList(nfds: nat, fds: array<Word>) returns (list: seq<int>, size: nat)
    requires nfds / WORD_BITS < fds.Length
    ensures list == Ascending(Bits(fds[..]), WORD_BITS * (nfds / WORD_BITS + 1))
    ensures size == |list|
  {
    hide Bits;
    list, size := [], 0;
    var iMax := nfds / WORD_BITS;
    var sockId := 0;
    ghost var bits := Bits(fds[..]);
    var i := 0;
    while i <= iMax
      invariant 0 <= i <= iMax + 1 && sockId == WORD_BITS * i
      invariant list == Ascending(bits, sockId) && size == |list|
    {
      var m := fds[i];
      if true in m {
        BitsOfWords(fds[..], i);
        var found := ExtractWord(m, sockId, bits);
        list, size := list + found, size + |found|;
      } else {
        EmptyWord(fds[..], i);
      }
      i, sockId := i + 1, sockId + WORD_BITS;
    }
  }
}
