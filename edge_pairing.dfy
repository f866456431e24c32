/**
 * What `computeOpposites` computes, stated without its dictionary: the half-edges are scanned in
 * storage order, each carrying the key of its undirected edge, and the occurrences of one key are
 * paired off consecutively (first with second, third with fourth, ...). A key that occurs an odd
 * number of times leaves its last occurrence unpaired (a boundary edge, or the odd one out of a
 * non-manifold edge).
 */
module EdgePairing {
  import opened Wrappers

  /** The dictionary key of an undirected edge: its two vertex ids, smaller first. */
  type Key = (nat, nat)

  /** The key `k${Math.min(a, b)},${Math.max(a, b)}` of the edge between vertex ids `a` and `b`. */
  function EdgeKey(a: nat, b: nat): (k: Key)
    ensures k.0 <= k.1
    ensures (k.0 == a && k.1 == b) || (k.0 == b && k.1 == a)
  {
    if a <= b then (a, b) else (b, a)
  }

  /** The key does not depend on the direction in which the edge is walked, and keys of two edges
      agree exactly when the edges join the same two vertices. */
  lemma EdgeKeyUndirected(a: nat, b: nat, c: nat, d: nat)
    ensures EdgeKey(a, b) == EdgeKey(b, a)
    ensures EdgeKey(a, b) == EdgeKey(c, d) <==> (a == c && b == d) || (a == d && b == c)
  {
  }

  /** How many of the first `n` keys equal `k`. */
  function Count(ks: seq<Key>, k: Key, n: nat): nat
    requires n <= |ks|
  {
    if n == 0 then 0 else Count(ks, k, n - 1) + (if ks[n - 1] == k then 1 else 0)
  }

  /** The last position before `n` holding `k`, or -1 when there is none. */
  function LastBefore(ks: seq<Key>, k: Key, n: nat): (r: int)
    requires n <= |ks|
    ensures -1 <= r < n
    ensures r >= 0 ==> ks[r] == k
    ensures forall j :: r < j < n ==> ks[j] != k
    ensures r == -1 <==> Count(ks, k, n) == 0
  {
    if n == 0 then -1 else if ks[n - 1] == k then n - 1 else LastBefore(ks, k, n - 1)
  }

  /** The first position after `h` and before `n` holding `k`, if any. */
  function NextIn(ks: seq<Key>, k: Key, h: nat, n: nat): (r: Option<nat>)
    requires h < n <= |ks|
    ensures r.Some? ==> h < r.value < n && ks[r.value] == k
    ensures forall j :: h < j < n && (r.None? || j < r.value) ==> ks[j] != k
    decreases n
  {
    if n == h + 1 then None
    else match NextIn(ks, k, h, n - 1)
      case Some(j) => Some(j)
      case None => if ks[n - 1] == k then Some(n - 1) else None
  }

  /** The partner of position `h` when only the first `n` keys have been scanned: an occurrence
      with an odd number of equal keys before it closes a pair with the previous occurrence; one
      with an even number opens a pair with the next occurrence, if that has been scanned. */
  function PartnerIn(ks: seq<Key>, n: nat, h: nat): Option<nat>
    requires h < n <= |ks|
  {
    if Count(ks, ks[h], h) % 2 == 1 then Some(LastBefore(ks, ks[h], h) as nat)
    else NextIn(ks, ks[h], h, n)
  }

  /** The opposite of half-edge `h` once every half-edge has been scanned. */
  function Partner(ks: seq<Key>, h: nat): Option<nat>
    requires h < |ks|
  {
    PartnerIn(ks, |ks|, h)
  }

  /** Keys other than `k` between `a` and `b` do not change the count of `k`. */
  lemma {:induction false} CountSkips(ks: seq<Key>, k: Key, a: nat, b: nat)
    requires a <= b <= |ks|
    requires forall j :: a <= j < b ==> ks[j] != k
    ensures Count(ks, k, b) == Count(ks, k, a)
    decreases b
  {
    if b > a {
      CountSkips(ks, k, a, b - 1);
    }
  }

  /** The last occurrence of `k` before `n` is preceded by all but one of the occurrences. */
  lemma LastOccurrenceCount(ks: seq<Key>, k: Key, h: nat, n: nat)
    requires h < n <= |ks| && ks[h] == k
    requires forall j :: h < j < n ==> ks[j] != k
    ensures LastBefore(ks, k, n) == h
    ensures Count(ks, k, n) == Count(ks, k, h) + 1
  {
    CountSkips(ks, k, h + 1, n);
  }

  /** Scanning position `n`: it closes the pair opened by the pending occurrence of its key when
      there is one (an odd count so far), changing that occurrence's partner from none to `n`, and
      otherwise becomes pending itself; no other partner changes. */
  lemma PartnerInStep(ks: seq<Key>, n: nat, h: nat)
    requires h <= n < |ks|
    ensures var k := ks[n];
      var pending := Count(ks, k, n) % 2 == 1;
      var last := LastBefore(ks, k, n);
      (h == n ==> PartnerIn(ks, n + 1, h) == if pending then Some(last as nat) else None) &&
      (h < n ==> PartnerIn(ks, n + 1, h) == if pending && h == last then Some(n) else PartnerIn(ks, n, h)) &&
      (h < n && pending && h == last ==> PartnerIn(ks, n, h) == None)
  {
    var k := ks[n];
    var kh := ks[h];
    if h < n && Count(ks, kh, h) % 2 == 0 {
      match NextIn(ks, kh, h, n)
      case Some(j) =>
        assert PartnerIn(ks, n + 1, h) == Some(j);
      case None =>
        if kh == k {
          LastOccurrenceCount(ks, k, h, n);
        }
    } else if h < n {
      if h == LastBefore(ks, k, n) {
        LastOccurrenceCount(ks, k, h, n);
      }
    }
  }

  /** The dictionary of `computeOpposites` after scanning the first `n` keys: it holds exactly the
      keys seen an odd number of times so far, each mapped to its last occurrence. */
  ghost predicate Pending(ks: seq<Key>, visited: map<Key, nat>, n: nat)
    requires n <= |ks|
  {
    (forall k :: k in visited ==>
      visited[k] < n && Count(ks, k, n) % 2 == 1 && LastBefore(ks, k, n) == visited[k]) &&
    (forall k :: Count(ks, k, n) % 2 == 1 ==> k in visited)
  }

  /** A parity fact on its own, so that the solver need not find it inside a larger proof. */
  lemma OddSuccessorEven(c: nat)
    requires c % 2 == 1
    ensures (c + 1) % 2 == 0
  {
  }

  /** One iteration of the scan: a key found in the dictionary is its pending occurrence and is
      removed; a key not found is entered with the current position. */
  lemma PendingStep(ks: seq<Key>, visited: map<Key, nat>, n: nat)
    requires n < |ks| && Pending(ks, visited, n)
    ensures ks[n] in visited <==> Count(ks, ks[n], n) % 2 == 1
    ensures ks[n] in visited ==> visited[ks[n]] == LastBefore(ks, ks[n], n)
    ensures ks[n] in visited ==> Pending(ks, visited - {ks[n]}, n + 1)
    ensures ks[n] !in visited ==> Pending(ks, visited[ks[n] := n], n + 1)
  {
    if ks[n] in visited {
      PendingRemove(ks, visited, n);
    } else {
      PendingAdd(ks, visited, n);
    }
  }

  lemma PendingRemove(ks: seq<Key>, visited: map<Key, nat>, n: nat)
    requires n < |ks| && Pending(ks, visited, n) && ks[n] in visited
    ensures Pending(ks, visited - {ks[n]}, n + 1)
  {
    var k := ks[n];
    var rest := visited - {k};
    forall j | j in rest
      ensures rest[j] < n + 1 && Count(ks, j, n + 1) % 2 == 1 && LastBefore(ks, j, n + 1) == rest[j]
    {
      assert Count(ks, j, n + 1) == Count(ks, j, n);
    }
    var c := Count(ks, k, n);
    assert c % 2 == 1 && Count(ks, k, n + 1) == c + 1;
    OddSuccessorEven(c);
    forall j | Count(ks, j, n + 1) % 2 == 1 ensures j in rest {
      if j != k {
        assert Count(ks, j, n + 1) == Count(ks, j, n);
      }
    }
  }

  lemma PendingAdd(ks: seq<Key>, visited: map<Key, nat>, n: nat)
    requires n < |ks| && Pending(ks, visited, n) && ks[n] !in visited
    ensures Pending(ks, visited[ks[n] := n], n + 1)
  {
    var k := ks[n];
    var added := visited[k := n];
    forall j | j in added
      ensures added[j] < n + 1 && Count(ks, j, n + 1) % 2 == 1 && LastBefore(ks, j, n + 1) == added[j]
    {
      if j != k {
        assert Count(ks, j, n + 1) == Count(ks, j, n);
      }
    }
    forall j | Count(ks, j, n + 1) % 2 == 1 ensures j in added {
      if j != k {
        assert Count(ks, j, n + 1) == Count(ks, j, n);
      }
    }
  }

  /** Opposites are symmetric, never a half-edge itself, on the same undirected edge, and they are
      consecutive occurrences of that edge's key: occurrences 2m and 2m+1 (counting from 0). */
  lemma PartnerSymmetric(ks: seq<Key>, h: nat, p: nat)
    requires h < |ks| && Partner(ks, h) == Some(p)
    ensures p < |ks| && p != h && ks[p] == ks[h] && Partner(ks, p) == Some(h)
    ensures Count(ks, ks[h], h) / 2 == Count(ks, ks[p], p) / 2
    ensures Count(ks, ks[h], h) % 2 == 0 <==> h < p
  {
    var k := ks[h];
    if Count(ks, k, h) % 2 == 1 {
      ClosingPartner(ks, p, h);
    } else {
      ClosingPartner(ks, h, p);
    }
  }

  /** The two halves of a pair, seen from the occurrence `h` that opens it. */
  lemma ClosingPartner(ks: seq<Key>, p: nat, h: nat)
    requires p < h < |ks| && ks[p] == ks[h]
    requires forall j :: p < j < h ==> ks[j] != ks[h]
    requires Count(ks, ks[h], h) % 2 == 1 || Count(ks, ks[p], p) % 2 == 0
    ensures Partner(ks, h) == Some(p) && Partner(ks, p) == Some(h)
    ensures Count(ks, ks[h], h) == Count(ks, ks[p], p) + 1
    ensures Count(ks, ks[p], p) % 2 == 0
  {
    var k := ks[h];
    LastOccurrenceCount(ks, k, p, h);
    ParityStep(Count(ks, k, p));
    NextOccurrence(ks, k, p, h);
  }

  /** Likewise, kept apart to keep the cost of `ClosingPartner` low and stable. */
  lemma ParityStep(c: nat)
    ensures (c + 1) % 2 == 1 <==> c % 2 == 0
  {
  }

  /** With no `k` strictly between `p` and `h`, the next `k` after `p` is at `h`. */
  lemma NextOccurrence(ks: seq<Key>, k: Key, p: nat, h: nat)
    requires p < h < |ks| && ks[h] == k
    requires forall j :: p < j < h ==> ks[j] != k
    ensures NextIn(ks, k, p, |ks|) == Some(h)
  {
    var r := NextIn(ks, k, p, |ks|);
    assert r.Some? && r.value <= h;
  }

  /** A half-edge stays without an opposite exactly when its key occurs an odd number of times in
      all and it is the last occurrence. */
  lemma PartnerNoneIff(ks: seq<Key>, h: nat)
    requires h < |ks|
    ensures Partner(ks, h).None? <==>
      Count(ks, ks[h], |ks|) % 2 == 1 && LastBefore(ks, ks[h], |ks|) == h
  {
    var k := ks[h];
    if Partner(ks, h).None? {
      LastOccurrenceCount(ks, k, h, |ks|);
    } else if LastBefore(ks, k, |ks|) == h {
      LastOccurrenceCount(ks, k, h, |ks|);
    }
  }

  /** On a closed mesh, where every undirected edge is shared by an even number of half-edges (two
      for a 2-manifold), every half-edge gets an opposite. */
  lemma ClosedMeshFullyPaired(ks: seq<Key>)
    requires forall h :: 0 <= h < |ks| ==> Count(ks, ks[h], |ks|) % 2 == 0
    ensures forall h :: 0 <= h < |ks| ==> Partner(ks, h).Some?
  {
    forall h | 0 <= h < |ks| ensures Partner(ks, h).Some? {
      PartnerNoneIff(ks, h);
    }
  }
}
