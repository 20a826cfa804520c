/** The index heap of batch verification (ed25519-donna-batchverify.h): positions hold indices of
    scalars, the root that of a largest one. Scalars are numbers, of which a comparison sees the limbs up to
    limbsize. */
module BatchHeap {
  import opened Words
  import opened FiniteSets
  import opened BatchLimbs

  /** lt256_modm_batch, as LtBatch computes it. */
  predicate Less(a: nat, b: nat, limbsize: nat) {
    a % Weight(limbsize + 1) < b % Weight(limbsize + 1)
  }

  lemma LessWhole(a: nat, b: nat, limbsize: nat)
    requires a < Weight(limbsize + 1) && b < Weight(limbsize + 1)
    ensures Less(a, b, limbsize) <==> a < b
  {
    ModUnique(a, a, 0, Weight(limbsize + 1));
    ModUnique(b, b, 0, Weight(limbsize + 1));
  }

  /** No scalar in the heap has more limbs than are compared. */
  ghost predicate Fits(h: seq<nat>, s: seq<nat>, limbsize: nat)
    requires Indexes(h, s)
  {
    forall i :: 0 <= i < |h| ==> s[h[i]] < Weight(limbsize + 1)
  }

  /** All indices below |h|, each once. */
  ghost predicate Perm(h: seq<nat>) {
    && (forall i :: 0 <= i < |h| ==> h[i] < |h|)
    && (forall i, j :: 0 <= i < j < |h| ==> h[i] != h[j])
  }

  /** Position i holds index i. */
  ghost predicate Identity(h: seq<nat>) {
    forall i :: 0 <= i < |h| ==> h[i] == i
  }

  ghost predicate Indexes(h: seq<nat>, s: seq<nat>) {
    forall i :: 0 <= i < |h| ==> h[i] < |s|
  }

  function Parent(j: nat): nat
    requires j > 0
  {
    (j - 1) / 2
  }

  ghost predicate Ord(h: seq<nat>, s: seq<nat>, j: nat)
    requires Indexes(h, s) && j < |h|
  {
    j > 0 ==> s[h[Parent(j)]] >= s[h[j]]
  }

  ghost predicate Ordered(h: seq<nat>, s: seq<nat>)
    requires Indexes(h, s)
  {
    forall j :: 0 <= j < |h| ==> Ord(h, s, j)
  }

  /** A child j of position p is not above the parent of p. */
  ghost predicate Under(h: seq<nat>, s: seq<nat>, p: nat, j: nat)
    requires Indexes(h, s) && j < |h|
  {
    0 < p < |h| && j > 0 && Parent(j) == p ==> s[h[Parent(p)]] >= s[h[j]]
  }

  /** Ordered but for position p, which may be above its parent. */
  ghost predicate Risen(h: seq<nat>, s: seq<nat>, p: nat)
    requires Indexes(h, s)
  {
    forall j :: 0 <= j < |h| ==> (j != p ==> Ord(h, s, j)) && Under(h, s, p, j)
  }

  /** Ordered but for position p, whose children may also be above it. */
  ghost predicate Hole(h: seq<nat>, s: seq<nat>, p: nat)
    requires Indexes(h, s)
  {
    forall j :: 0 <= j < |h| ==> (j == p || (j > 0 && Parent(j) == p) || Ord(h, s, j)) && Under(h, s, p, j)
  }

  ghost function Swapped(h: seq<nat>, a: nat, b: nat): seq<nat>
    requires a < |h| && b < |h|
  {
    h[a := h[b]][b := h[a]]
  }

  lemma SwapKeeps(h: seq<nat>, a: nat, b: nat)
    requires a < |h| && b < |h| && Perm(h)
    ensures Perm(Swapped(h, a, b))
  {
  }

  /** Swapping a risen node with its smaller parent moves the open place up. */
  lemma Rise(h: seq<nat>, s: seq<nat>, p: nat)
    requires Indexes(h, s) && 0 < p < |h| && Risen(h, s, p) && s[h[Parent(p)]] <= s[h[p]]
    ensures var t := Swapped(h, Parent(p), p); Indexes(t, s) && Risen(t, s, Parent(p))
  {
    var q := Parent(p);
    var t := Swapped(h, q, p);
    assert Ord(h, s, q);
    forall j | 0 <= j < |t|
      ensures (j != q ==> Ord(t, s, j)) && Under(t, s, q, j)
    {
      assert (j != p ==> Ord(h, s, j)) && Under(h, s, p, j);
    }
  }

  /** Swapping the open place with its larger child moves it down. */
  lemma Sink(h: seq<nat>, s: seq<nat>, p: nat, c: nat)
    requires Indexes(h, s) && 2 * p + 2 < |h| && Hole(h, s, p)
    requires c == 2 * p + 1 || c == 2 * p + 2
    requires s[h[c]] >= s[h[2 * p + 1]] && s[h[c]] >= s[h[2 * p + 2]]
    ensures var t := Swapped(h, p, c); Indexes(t, s) && Hole(t, s, c)
  {
    var t := Swapped(h, p, c);
    assert Under(h, s, p, c);
    forall j | 0 <= j < |t|
      ensures (j == c || (j > 0 && Parent(j) == c) || Ord(t, s, j)) && Under(t, s, c, j)
    {
      assert (j == p || (j > 0 && Parent(j) == p) || Ord(h, s, j)) && Under(h, s, p, j);
    }
  }

  /** heap_swap on the first live of n positions. */
  method Swap(heap: array<nat>, n: nat, live: nat, a: nat, b: nat)
    requires live <= n <= heap.Length && a < live && b < live && Perm(heap[..n])
    modifies heap
    ensures heap[..live] == Swapped(old(heap[..live]), a, b)
    ensures Perm(heap[..n]) && heap[live..] == old(heap[live..])
  {
    ghost var h := heap[..n];
    SwapKeeps(h, a, b);
    var temp := heap[a];
    heap[a] := heap[b];
    heap[b] := temp;
    assert heap[..n] == Swapped(h, a, b);
  }

  /** The upward loops: heap_insert_next stops at equal scalars, heap_updated_root does not. */
  method SiftUp(heap: array<nat>, scalars: array<nat>, n: nat, live: nat, start: nat, orEqual: bool, limbsize: nat)
    requires heap != scalars && live <= n <= heap.Length && n <= scalars.Length && start < live
    requires Perm(heap[..n]) && Indexes(heap[..live], scalars[..]) && Fits(heap[..live], scalars[..], limbsize)
    requires Risen(heap[..live], scalars[..], start)
    modifies heap
    ensures Perm(heap[..n]) && Indexes(heap[..live], scalars[..]) && Fits(heap[..live], scalars[..], limbsize)
    ensures Ordered(heap[..live], scalars[..]) && heap[live..] == old(heap[live..])
    ensures !orEqual && Ord(old(heap[..live]), scalars[..], start) ==> heap[..live] == old(heap[..live])
  {
    var node: nat := start;
    while node > 0
      invariant !orEqual && Ord(old(heap[..live]), scalars[..], start) ==>
                  node == start && heap[..live] == old(heap[..live])
      invariant node < live && Perm(heap[..n]) && heap[live..] == old(heap[live..])
      invariant Indexes(heap[..live], scalars[..]) && Fits(heap[..live], scalars[..], limbsize)
      invariant Risen(heap[..live], scalars[..], node)
    {
      var parent := Parent(node);
      ghost var h := heap[..live];
      LessWhole(scalars[h[parent]], scalars[h[node]], limbsize);
      LessWhole(scalars[h[node]], scalars[h[parent]], limbsize);
      if (if orEqual then Less(scalars[heap[node]], scalars[heap[parent]], limbsize)
          else !Less(scalars[heap[parent]], scalars[heap[node]], limbsize)) {
        break;
      }
      Rise(h, scalars[..], node);
      Swap(heap, n, live, parent, node);
      node := parent;
    }
    assert Ord(heap[..live], scalars[..], node);
  }

  /** heap_insert_next: index n enters a heap of the indices below n; all limbs are compared. Scalars that come
      in heap order stay where they are put. */
  method InsertNext(heap: array<nat>, scalars: array<nat>, n: nat)
    requires heap != scalars && n < heap.Length && n < scalars.Length
    requires forall i :: 0 <= i <= n ==> scalars[i] < Weight(5)
    requires Perm(heap[..n]) && Ordered(heap[..n], scalars[..])
    modifies heap
    ensures Perm(heap[..n + 1]) && Ordered(heap[..n + 1], scalars[..])
    ensures Identity(old(heap[..n])) && (n > 0 ==> scalars[n] <= scalars[Parent(n)]) ==> Identity(heap[..n + 1])
  {
    ghost var h := heap[..n];
    heap[n] := n;
    Appended(h, heap[..n + 1], scalars[..]);
    assert heap[..n + 1] == h + [n];
    SiftUp(heap, scalars, n + 1, n + 1, n, false, 4);
  }

  lemma Appended(h: seq<nat>, t: seq<nat>, s: seq<nat>)
    requires Perm(h) && |h| < |s| && t == h + [|h|] && Ordered(h, s)
    ensures Perm(t) && Risen(t, s, |h|)
  {
    forall j | 0 <= j < |t|
      ensures (j != |h| ==> Ord(t, s, j)) && Under(t, s, |h|, j)
    {
      if j < |h| {
        assert Ord(h, s, j);
      }
    }
  }

  /** How many of n positions heap_updated_root works on: when n is even it never looks at the last one,
      a left child without a right one. */
  function Live(n: nat): nat
    requires n > 0
  {
    if n % 2 == 1 then n else n - 1
  }

  /** The heap of the first Live(n) positions, open at position p. */
  ghost predicate Open(heap: array<nat>, scalars: array<nat>, n: nat, limbsize: nat, p: nat)
    reads heap, scalars
  {
    && 3 <= n <= heap.Length && n <= scalars.Length && Perm(heap[..n])
    && Indexes(heap[..Live(n)], scalars[..]) && Fits(heap[..Live(n)], scalars[..], limbsize)
    && Hole(heap[..Live(n)], scalars[..], p)
  }

  /** The open place moves to the larger child. */
  method SinkOne(heap: array<nat>, scalars: array<nat>, n: nat, limbsize: nat, parent: nat) returns (node: nat)
    requires heap != scalars && Open(heap, scalars, n, limbsize, parent) && 2 * parent + 2 < n
    modifies heap
    ensures node == 2 * parent + 1 || node == 2 * parent + 2
    ensures Open(heap, scalars, n, limbsize, node) && heap[Live(n)..] == old(heap[Live(n)..])
  {
    var live := Live(n);
    ghost var h := heap[..live];
    assert h[2 * parent + 1] == heap[2 * parent + 1] && h[2 * parent + 2] == heap[2 * parent + 2];
    node := LargerOf(heap, scalars, 2 * parent + 1, 2 * parent + 2, limbsize);
    Sink(h, scalars[..], parent, node);
    Swap(heap, n, live, parent, node);
  }

  method LargerOf(heap: array<nat>, scalars: array<nat>, childl: nat, childr: nat, limbsize: nat) returns (node: nat)
    requires childl < heap.Length && heap[childl] < scalars.Length && scalars[heap[childl]] < Weight(limbsize + 1)
    requires childr < heap.Length && heap[childr] < scalars.Length && scalars[heap[childr]] < Weight(limbsize + 1)
    ensures node == childl || node == childr
    ensures scalars[heap[node]] >= scalars[heap[childl]] && scalars[heap[node]] >= scalars[heap[childr]]
  {
    LessWhole(scalars[heap[childl]], scalars[heap[childr]], limbsize);
    node := if Less(scalars[heap[childl]], scalars[heap[childr]], limbsize) then childr else childl;
  }

  /** heap_updated_root: the root sinks to a leaf along larger children, then rises to its place. */
  method UpdatedRoot(heap: array<nat>, scalars: array<nat>, n: nat, limbsize: nat)
    requires heap != scalars && Open(heap, scalars, n, limbsize, 0)
    modifies heap
    ensures Perm(heap[..n]) && Indexes(heap[..Live(n)], scalars[..]) && Ordered(heap[..Live(n)], scalars[..])
    ensures Fits(heap[..Live(n)], scalars[..], limbsize) && heap[Live(n)..] == old(heap[Live(n)..])
  {
    var node := SinkOne(heap, scalars, n, limbsize, 0);
    while 2 * node + 2 < n
      invariant node < Live(n) && Open(heap, scalars, n, limbsize, node) && heap[Live(n)..] == old(heap[Live(n)..])
      decreases n - node
    {
      node := SinkOne(heap, scalars, n, limbsize, node);
    }
    AtLeaf(heap[..Live(n)], scalars[..], node);
    SiftUp(heap, scalars, n, Live(n), node, true, limbsize);
  }

  lemma AtLeaf(h: seq<nat>, s: seq<nat>, p: nat)
    requires Indexes(h, s) && Hole(h, s, p) && |h| <= 2 * p + 1
    ensures Risen(h, s, p)
  {
    forall j | 0 <= j < |h|
      ensures (j != p ==> Ord(h, s, j)) && Under(h, s, p, j)
    {
      assert (j == p || (j > 0 && Parent(j) == p) || Ord(h, s, j)) && Under(h, s, p, j);
    }
  }

  /** The root is a largest scalar, and the larger of its children a largest of the others. */
  lemma {:induction false} RootIsMax(h: seq<nat>, s: seq<nat>, j: nat)
    requires Indexes(h, s) && Ordered(h, s) && j < |h|
    ensures s[h[0]] >= s[h[j]]
    ensures j > 0 ==> (s[h[1]] >= s[h[j]] || (|h| > 2 && s[h[2]] >= s[h[j]]))
  {
    if j > 0 {
      assert Ord(h, s, j);
      RootIsMax(h, s, Parent(j));
    }
  }

  ghost function Upto(n: nat): set<nat> {
    if n == 0 then {} else Upto(n - 1) + {n - 1}
  }

  lemma {:induction false} UptoSize(n: nat)
    ensures |Upto(n)| == n && forall k: nat :: k in Upto(n) <==> k < n
  {
    if n > 0 {
      UptoSize(n - 1);
    }
  }

  /** Every index below |h| is somewhere in the heap. */
  lemma Covers(h: seq<nat>, k: nat)
    requires Perm(h) && k < |h|
    ensures k in h
  {
    if k !in h {
      UptoSize(|h|);
      Counting(h, |h|);
      SubsetSize(set i | 0 <= i < |h| :: h[i], Upto(|h|) - {k});
    }
  }

  lemma {:induction false} Counting(h: seq<nat>, n: nat)
    requires n <= |h| && forall i, j :: 0 <= i < j < |h| ==> h[i] != h[j]
    ensures |set i | 0 <= i < n :: h[i]| == n
  {
    if n > 0 {
      Counting(h, n - 1);
      assert (set i | 0 <= i < n :: h[i]) == (set i | 0 <= i < n - 1 :: h[i]) + {h[n - 1]};
    }
  }

  /** heap_get_top2: the indices of a largest and a second largest scalar, among those in the first live of
      n positions. */
  method GetTop2(heap: array<nat>, scalars: array<nat>, n: nat, ghost live: nat, limbsize: nat)
    returns (max1: nat, max2: nat)
    requires 3 <= live <= n <= heap.Length && n <= scalars.Length
    requires Perm(heap[..n]) && Indexes(heap[..live], scalars[..]) && Ordered(heap[..live], scalars[..])
    requires Fits(heap[..live], scalars[..], limbsize)
    ensures max1 == heap[0] && (max2 == heap[1] || max2 == heap[2])
    ensures max1 != max2 && max1 < n && max2 < n && scalars[max2] <= scalars[max1]
    ensures max1 !in heap[live..n] && max2 !in heap[live..n]
    ensures forall k :: 0 <= k < n && k !in heap[live..n] ==>
              scalars[k] <= scalars[max1] && (k != max1 ==> scalars[k] <= scalars[max2])
  {
    var h1, h2 := heap[1], heap[2];
    LessWhole(scalars[heap[..live][1]], scalars[heap[..live][2]], limbsize);
    if Less(scalars[h1], scalars[h2], limbsize) {
      h1 := h2;
    }
    max1, max2 := heap[0], h1;
    ghost var h, s := heap[..n], scalars[..];
    assert forall j :: live <= j < n ==> heap[live..n][j - live] == h[j];
    forall j | 0 <= j < live
      ensures s[h[j]] <= s[max1] && (h[j] != max1 ==> s[h[j]] <= s[max2])
    {
      RootIsMax(heap[..live], s, j);
    }
    forall k | 0 <= k < n && k !in heap[live..n]
      ensures s[k] <= s[max1] && (k != max1 ==> s[k] <= s[max2])
    {
      Covers(h, k);
      var j :| 0 <= j < n && h[j] == k;
    }
    assert h[0] == max1 && (h[1] == max2 || h[2] == max2);
  }
}
