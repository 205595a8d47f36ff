/** The generic array-backed binary min-heap (`OS_heap_t`).

    The C record holds a store pointer, a `size` and a comparator. Here the
    live prefix `heapStore[0..size)` is the sequence `store`, so `size` is
    `|store|`, and the comparator `cmp(a, b)` is `key(a) - key(b)` for a
    caller-supplied key. The store's capacity is not part of the record in C
    either: callers check it, so it appears as a precondition at each use site.

    Nodes are numbered from 1 as in the C code (`parentNode`, `childNode`);
    node `n` lives at `store[n - 1]` and its parent is node `n / 2`. The
    invariants below are stated on 0-based indices, where the parent of index
    `j > 0` is `(j - 1) / 2`. */
module Heaps {
  import opened Common

  /** Parent of 0-based index `j`; equals `(j + 1) / 2 - 1`, the C `childNode / 2`. */
  function Parent(j: nat): nat
    requires j > 0
  {
    (j - 1) / 2
  }

  /** No parent compares greater than its child. */
  predicate HeapOrdered<T>(s: seq<T>, key: T -> int) {
    forall j :: 0 < j < |s| ==> key(s[Parent(j)]) <= key(s[j])
  }

  /** Heap order everywhere except between index `c` and its parent, and the
      parent of `c` is no greater than the children of `c`: what holds while
      an inserted item climbs towards the root. */
  predicate UpInv<T>(s: seq<T>, key: T -> int, c: nat) {
    && (forall j :: 0 < j < |s| && j != c ==> key(s[Parent(j)]) <= key(s[j]))
    && (forall j :: 0 < j < |s| && Parent(j) == c && c > 0 ==> key(s[Parent(c)]) <= key(s[j]))
  }

  /** Heap order everywhere except between index `p` and its children, and
      the parent of `p` is no greater than the children of `p`: what holds
      while the displaced last item sinks from the root. */
  predicate DownInv<T>(s: seq<T>, key: T -> int, p: nat) {
    && (forall j :: 0 < j < |s| && Parent(j) != p ==> key(s[Parent(j)]) <= key(s[j]))
    && (forall j :: 0 < j < |s| && Parent(j) == p && p > 0 ==> key(s[Parent(p)]) <= key(s[j]))
  }

  /** Exchange two cells, as the `parent_temp` swaps do. */
  function Swap<T>(s: seq<T>, i: nat, j: nat): (r: seq<T>)
    requires i < |s| && j < |s|
    ensures |r| == |s| && r[i] == s[j] && r[j] == s[i]
    ensures forall k :: 0 <= k < |s| && k != i && k != j ==> r[k] == s[k]
    ensures multiset(r) == multiset(s)
  {
    s[i := s[j]][j := s[i]]
  }

  lemma UpStep<T>(s: seq<T>, key: T -> int, c: nat)
    requires 0 < c < |s|
    ensures var p := Parent(c);
            var s' := if key(s[p]) > key(s[c]) then Swap(s, p, c) else s;
            UpInv(s, key, c) ==> UpInv(s', key, p)
  {
    if !UpInv(s, key, c) { return; }
    var p := Parent(c);
    if key(s[p]) > key(s[c]) {
      var s' := Swap(s, p, c);
      forall j | 0 < j < |s'| && j != p
        ensures key(s'[Parent(j)]) <= key(s'[j])
      {
        if j == c {
        } else if Parent(j) == c {
        } else if Parent(j) == p {
          assert s'[j] == s[j];
        } else if j == p {
        }
      }
      forall j | 0 < j < |s'| && Parent(j) == p && p > 0
        ensures key(s'[Parent(p)]) <= key(s'[j])
      {
        assert Parent(p) < p;
        assert key(s[Parent(p)]) <= key(s[p]);
        if j != c {
          assert key(s[p]) <= key(s[j]);
        }
      }
    } else {
      forall j | 0 < j < |s| && Parent(j) == p && p > 0
        ensures key(s[Parent(p)]) <= key(s[j])
      {
        assert key(s[Parent(p)]) <= key(s[p]);
        if j != c {
          assert key(s[p]) <= key(s[j]);
        }
      }
    }
  }

  /** One round of `_heap_up` at node `child`: swap it with its parent when
      the parent compares greater. */
  function UpSwap<T>(s: seq<T>, key: T -> int, child: nat): (r: seq<T>)
    requires 2 <= child <= |s|
    ensures |r| == |s| && multiset(r) == multiset(s)
    ensures UpInv(s, key, child - 1) ==> UpInv(r, key, child / 2 - 1)
  {
    var c := child - 1;
    UpStep(s, key, c);
    assert Parent(c) == child / 2 - 1;
    if key(s[Parent(c)]) > key(s[c]) then Swap(s, Parent(c), c) else s
  }

  /** `_heap_up`: starting from node `child`, compare each node with its
      parent and swap when the parent compares greater, then move to the
      parent, until the root is reached. */
  function SiftUp<T>(s: seq<T>, key: T -> int, child: nat): (r: seq<T>)
    requires 1 <= child <= |s|
    ensures |r| == |s| && multiset(r) == multiset(s)
    ensures UpInv(s, key, child - 1) ==> HeapOrdered(r, key)
    decreases child
  {
    if child <= 1 then s else SiftUp(UpSwap(s, key, child), key, child / 2)
  }

  /** Lowering the key of the item at index `c`, an item stored nowhere
      else, breaks heap order at most between `c` and its parent, so
      sifting up from node `c + 1` restores it. */
  lemma DecreaseKey<T>(s: seq<T>, k1: T -> int, k2: T -> int, c: nat)
    requires HeapOrdered(s, k1) && c < |s|
    requires forall j :: 0 <= j < |s| && j != c ==> s[j] != s[c] && k2(s[j]) == k1(s[j])
    requires k2(s[c]) <= k1(s[c])
    ensures UpInv(s, k2, c)
    ensures HeapOrdered(SiftUp(s, k2, c + 1), k2)
  {
    forall j | 0 < j < |s| && j != c
      ensures k2(s[Parent(j)]) <= k2(s[j])
    {
      assert k1(s[Parent(j)]) <= k1(s[j]);
    }
    forall j | 0 < j < |s| && Parent(j) == c && c > 0
      ensures k2(s[Parent(c)]) <= k2(s[j])
    {
      assert k1(s[Parent(c)]) <= k1(s[c]) <= k1(s[j]);
    }
  }

  lemma DownStep<T>(s: seq<T>, key: T -> int, p: nat, m: nat)
    requires p < m < |s| && Parent(m) == p
    requires forall j :: 0 < j < |s| && Parent(j) == p ==> key(s[m]) <= key(s[j])
    ensures var s' := if key(s[p]) > key(s[m]) then Swap(s, p, m) else s;
            DownInv(s, key, p) ==> DownInv(s', key, m)
  {
    if !DownInv(s, key, p) { return; }
    if key(s[p]) > key(s[m]) {
      var s' := Swap(s, p, m);
      forall j | 0 < j < |s'| && Parent(j) != m
        ensures key(s'[Parent(j)]) <= key(s'[j])
      {
        if j == m {
        } else if Parent(j) == p {
          assert s'[j] == s[j];
        } else if j == p {
        }
      }
      forall j | 0 < j < |s'| && Parent(j) == m
        ensures key(s'[Parent(m)]) <= key(s'[j])
      {
        assert j != p && j != m;
      }
    } else {
      forall j | 0 < j < |s| && Parent(j) == m
        ensures key(s[Parent(m)]) <= key(s[j])
      {
        assert key(s[m]) <= key(s[j]);
      }
    }
  }

  /** The child `_heap_down` descends to from node `parent` (1-based): the
      right child unless it is absent or compares greater than the left, so
      ties go right. It is no greater than any child of `parent`. */
  function SmallerChild<T>(s: seq<T>, key: T -> int, parent: nat): (m: nat)
    requires 1 <= parent && parent * 2 <= |s|
    ensures m == parent * 2 || (m == parent * 2 + 1 && m <= |s|)
    ensures forall j :: 0 < j < |s| && Parent(j) == parent - 1 ==> key(s[m - 1]) <= key(s[j])
  {
    var left := parent * 2;
    var right := left + 1;
    if right <= |s| then (if key(s[right - 1]) > key(s[left - 1]) then left else right)
    else left
  }

  /** A node without children closes the sift-down. */
  lemma DownLeaf<T>(s: seq<T>, key: T -> int, p: nat)
    requires 2 * p + 1 >= |s| && DownInv(s, key, p)
    ensures HeapOrdered(s, key)
  {
    forall j | 0 < j < |s| ensures key(s[Parent(j)]) <= key(s[j]) {
      assert Parent(j) != p;
    }
  }

  /** One round of `_heap_down` at node `parent`: swap it with its smaller
      child when it compares greater than that child. */
  function DownSwap<T>(s: seq<T>, key: T -> int, parent: nat): (r: seq<T>)
    requires 1 <= parent && parent * 2 <= |s|
    ensures |r| == |s| && multiset(r) == multiset(s)
    ensures DownInv(s, key, parent - 1) ==> DownInv(r, key, SmallerChild(s, key, parent) - 1)
  {
    var smallest := SmallerChild(s, key, parent);
    DownStep(s, key, parent - 1, smallest - 1);
    if key(s[parent - 1]) > key(s[smallest - 1]) then Swap(s, parent - 1, smallest - 1) else s
  }

  /** `_heap_down`: starting from node `parent`, swap with the smaller child
      when the parent compares greater than it, and move to that child,
      while a left child exists. */
  function SiftDown<T>(s: seq<T>, key: T -> int, parent: nat): (r: seq<T>)
    requires 1 <= parent
    ensures |r| == |s| && multiset(r) == multiset(s)
    ensures parent <= |s| && DownInv(s, key, parent - 1) ==> HeapOrdered(r, key)
    decreases |s| - parent
  {
    if parent * 2 > |s| then
      assert parent <= |s| && DownInv(s, key, parent - 1) ==> HeapOrdered(s, key) by {
        if parent <= |s| && DownInv(s, key, parent - 1) {
          DownLeaf(s, key, parent - 1);
        }
      }
      s
    else
      SiftDown(DownSwap(s, key, parent), key, SmallerChild(s, key, parent))
  }

  /** The root of a heap-ordered store is a minimum of the whole store. */
  lemma {:induction false} RootIsMinimum<T>(s: seq<T>, key: T -> int, j: nat)
    requires HeapOrdered(s, key) && j < |s|
    ensures key(s[0]) <= key(s[j])
    decreases j
  {
    if j > 0 {
      RootIsMinimum(s, key, Parent(j));
    }
  }

  /** `OS_heap_isEmpty`: true exactly when the heap holds nothing. */
  function IsEmpty<T>(s: seq<T>): (e: bool)
    ensures e <==> multiset(s) == multiset{}
  {
    |s| == 0
  }

  /** `OS_heap_insert`: store the item at index `size`, grow `size`, sift up. */
  function Insert<T>(s: seq<T>, key: T -> int, item: T): (r: seq<T>)
    ensures |r| == |s| + 1
    ensures multiset(r) == multiset(s) + multiset{item}
    ensures HeapOrdered(s, key) ==> HeapOrdered(r, key)
  {
    var grown := s + [item];
    assert HeapOrdered(s, key) ==> UpInv(grown, key, |s|) by {
      if HeapOrdered(s, key) {
        forall j | 0 < j < |grown| && j != |s| ensures key(grown[Parent(j)]) <= key(grown[j]) {
          assert grown[j] == s[j] && grown[Parent(j)] == s[Parent(j)];
        }
      }
    }
    SiftUp(grown, key, |grown|)
  }

  /** `OS_heap_extract`: on an empty heap, NULL and nothing changes;
      otherwise the old root, with the last item moved to the root, `size`
      shrunk and the store sifted down. */
  function Extract<T>(s: seq<T>, key: T -> int): (res: (Option<T>, seq<T>))
    ensures |s| == 0 ==> res.0 == None && res.1 == s
    ensures |s| > 0 ==> res.0 == Some(s[0])
    ensures |s| > 0 ==> |res.1| == |s| - 1 && multiset(res.1) + multiset{s[0]} == multiset(s)
    ensures |s| > 0 && HeapOrdered(s, key) ==>
              HeapOrdered(res.1, key) && forall x :: x in s ==> key(s[0]) <= key(x)
  {
    if IsEmpty(s) then
      (None, s)
    else
      var n := |s| - 1;
      var moved := s[0 := s[n]][..n];
      MovedLast(s, key);
      RootIsMinimumAll(s, key);
      (Some(s[0]), SiftDown(moved, key, 1))
  }

  /** Moving the last item to the root and dropping the last cell removes
      exactly the root, and leaves heap order everywhere below the root. */
  lemma MovedLast<T>(s: seq<T>, key: T -> int)
    requires |s| > 0
    ensures var n := |s| - 1;
            var moved := s[0 := s[n]][..n];
            && multiset(moved) + multiset{s[0]} == multiset(s)
            && (HeapOrdered(s, key) && n > 0 ==> DownInv(moved, key, 0))
  {
    MovedLastItems(s);
    var n := |s| - 1;
    var moved := s[0 := s[n]][..n];
    if HeapOrdered(s, key) && n > 0 {
      forall j | 0 < j < |moved| && Parent(j) != 0
        ensures key(moved[Parent(j)]) <= key(moved[j])
      {
        assert moved[j] == s[j] && moved[Parent(j)] == s[Parent(j)];
      }
    }
  }

  lemma MovedLastItems<T>(s: seq<T>)
    requires |s| > 0
    ensures var n := |s| - 1;
            multiset(s[0 := s[n]][..n]) + multiset{s[0]} == multiset(s)
  {
    var n := |s| - 1;
    if n > 0 {
      assert s == [s[0]] + s[1..n] + [s[n]];
      assert s[0 := s[n]][..n] == [s[n]] + s[1..n];
    }
  }

  /** The root of a non-empty heap-ordered store is no greater than any item. */
  lemma RootIsMinimumAll<T>(s: seq<T>, key: T -> int)
    requires |s| > 0
    ensures HeapOrdered(s, key) ==> forall x :: x in s ==> key(s[0]) <= key(x)
  {
    if HeapOrdered(s, key) {
      forall x | x in s ensures key(s[0]) <= key(x) {
        var j :| 0 <= j < |s| && s[j] == x;
        RootIsMinimum(s, key, j);
      }
    }
  }

  /** `OS_heap_peek`: the root, or NULL when empty; the store is untouched. */
  function Peek<T>(s: seq<T>, key: T -> int): (r: Option<T>)
    ensures r.None? <==> |s| == 0
    ensures r.Some? ==> r.value in s
    ensures r.Some? && HeapOrdered(s, key) ==> forall x :: x in s ==> key(r.value) <= key(x)
  {
    if IsEmpty(s) then None
    else
      RootIsMinimumAll(s, key);
      Some(s[0])
  }

  /** Peek names the item a following extract removes, and peeking leaves the
      heap exactly as it was for that extract. */
  lemma PeekThenExtract<T>(s: seq<T>, key: T -> int)
    ensures Peek(s, key) == Extract(s, key).0
  {
  }

  /** Heap order depends only on the keys of the stored items. */
  lemma OrderedSameKeys<T>(s: seq<T>, k1: T -> int, k2: T -> int)
    requires forall x :: x in s ==> k1(x) == k2(x)
    ensures HeapOrdered(s, k1) <==> HeapOrdered(s, k2)
  {
    assert forall j :: 0 < j < |s| ==> s[j] in s && s[Parent(j)] in s;
  }
}
