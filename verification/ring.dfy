/** The circular doubly-linked ready rings (`_list_add`, `_list_remove` and the
    scheduler's `head = head->next`).

    A ring is modelled as the sequence of its tasks in rotation order, starting
    at the head: `r[0]` is the head, `r[i + 1]` follows `r[i]`, and the head
    follows the last task. The pointer-level C operations on `next`/`prev`
    links are modelled separately (`Links`) and proved to act on that sequence
    exactly as `Add`, `Remove` and `Advance` do. */
module Rings {
  import opened Common

  /** `_list_add`: an empty ring becomes the task alone; otherwise the task
      goes just before the head, i.e. last in rotation order. */
  function Add(r: seq<TaskId>, t: TaskId): (r': seq<TaskId>)
    ensures multiset(r') == multiset(r) + multiset{t}
    ensures forall x :: x in r' <==> x in r || x == t
  {
    r + [t]
  }

  /** `_list_remove` of a task known to be in the ring: the rest keep their
      cyclic order. */
  function Remove(r: seq<TaskId>, t: TaskId): (r': seq<TaskId>)
    requires t in r
    ensures |r'| == |r| - 1
    ensures multiset(r') == multiset(r) - multiset{t}
    ensures forall x :: x != t ==> (x in r' <==> x in r)
    ensures multiset(r)[t] == 1 ==> t !in r'
  {
    var i := IndexOf(r, t);
    assert r == r[..i] + [t] + r[i + 1..];
    r[..i] + r[i + 1..]
  }

  /** The scheduler's `head = head->next`: the head's successor becomes the head. */
  function Advance(r: seq<TaskId>): (r': seq<TaskId>)
    requires r != []
    ensures |r'| == |r| && multiset(r') == multiset(r)
  {
    assert r == [r[0]] + r[1..];
    r[1..] + [r[0]]
  }

  // ---------------------------------------------------------------------
  // Pointer-level rings.

  /** A task list head plus the `next`/`prev` fields of the TCBs. */
  datatype Links = Links(head: Option<TaskId>, next: map<TaskId, TaskId>, prev: map<TaskId, TaskId>)

  /** Successor and predecessor positions in a ring of `n` tasks. */
  function Succ(i: nat, n: nat): nat
    requires i < n
  {
    if i + 1 == n then 0 else i + 1
  }

  function Pred(i: nat, n: nat): nat
    requires i < n
  {
    if i == 0 then n - 1 else i - 1
  }

  /** Member `r[i]` is linked to its successor and predecessor in `r`. */
  predicate LinkedAt(l: Links, r: seq<TaskId>, i: nat)
    requires i < |r|
  {
    && r[i] in l.next && r[i] in l.prev
    && l.next[r[i]] == r[Succ(i, |r|)]
    && l.prev[r[i]] == r[Pred(i, |r|)]
  }

  /** The links describe the ring `r`: the head is `r[0]` (NULL when empty)
      and every member's `next`/`prev` name its successor/predecessor. */
  predicate Represents(l: Links, r: seq<TaskId>) {
    && NoDup(r)
    && (if r == [] then l.head == None else l.head == Some(r[0]))
    && (forall i :: 0 <= i < |r| ==> LinkedAt(l, r, i))
  }

  /** `_list_add`, statement by statement. */
  function LinkAdd(l: Links, t: TaskId): Links
    requires l.head.Some? ==> l.head.value in l.prev
  {
    match l.head
    case None => Links(Some(t), l.next[t := t], l.prev[t := t])
    case Some(h) =>
      var next1 := l.next[t := h];
      var prev1 := l.prev[t := l.prev[h]];
      var next2 := next1[prev1[t] := t];
      var prev2 := prev1[h := t];
      Links(l.head, next2, prev2)
  }

  /** `_list_remove`, statement by statement. */
  function LinkRemove(l: Links, t: TaskId): Links
    requires t in l.next && t in l.prev
  {
    if l.next[t] == t then
      l.(head := None)
    else
      var head := if l.head == Some(t) then Some(l.next[t]) else l.head;
      var prev1 := l.prev[l.next[t] := l.prev[t]];
      var next1 := l.next[l.prev[t] := l.next[t]];
      Links(head, next1, prev1)
  }

  /** `head = head->next`. */
  function LinkAdvance(l: Links): Links
    requires l.head.Some? && l.head.value in l.next
  {
    l.(head := Some(l.next[l.head.value]))
  }

  lemma AddNoDup(r: seq<TaskId>, t: TaskId)
    requires NoDup(r) && t !in r
    ensures NoDup(Add(r, t))
  {
    var r' := Add(r, t);
    forall i, j | 0 <= i < j < |r'| ensures r'[i] != r'[j] {
      assert r'[i] == r[i];
      if j < |r| { assert r'[j] == r[j]; }
    }
  }

  /** The links of one ring member after `_list_add`. */
  lemma AddLinkAt(l: Links, r: seq<TaskId>, t: TaskId, i: nat)
    requires Represents(l, r) && t !in r && r != [] && i <= |r|
    ensures r[0] in l.prev
    ensures LinkedAt(LinkAdd(l, t), Add(r, t), i)
  {
    var n := |r|;
    var r' := Add(r, t);
    var tail := r[n - 1];
    assert LinkedAt(l, r, 0);
    var l' := LinkAdd(l, t);
    assert l'.next == l.next[t := r[0]][tail := t];
    assert l'.prev == l.prev[t := tail][r[0] := t];
    if i < n {
      var x := r[i];
      assert LinkedAt(l, r, i);
      assert r'[i] == x && x != t;
      if i != 0 {
        assert x != r[0];
        assert r'[Pred(i, n + 1)] == r[Pred(i, n)];
      }
      if i != n - 1 {
        assert x != tail;
        assert r'[Succ(i, n + 1)] == r[Succ(i, n)];
      }
    } else {
      assert r'[i] == t;
    }
  }

  lemma AddRefines(l: Links, r: seq<TaskId>, t: TaskId)
    requires Represents(l, r) && t !in r
    ensures l.head.Some? ==> l.head.value in l.prev
    ensures Represents(LinkAdd(l, t), Add(r, t))
  {
    var r' := Add(r, t);
    if r == [] {
      assert r' == [t];
      assert LinkedAt(LinkAdd(l, t), r', 0);
    } else {
      assert LinkedAt(l, r, 0);
      AddNoDup(r, t);
      forall i | 0 <= i < |r'| ensures LinkedAt(LinkAdd(l, t), r', i) {
        AddLinkAt(l, r, t, i);
      }
    }
  }

  /** In a ring without duplicates, a task is its own successor only when alone. */
  lemma SelfLinkedIffAlone(l: Links, r: seq<TaskId>, i: nat)
    requires Represents(l, r) && i < |r|
    ensures r[i] in l.next
    ensures l.next[r[i]] == r[i] <==> |r| == 1
  {
    assert LinkedAt(l, r, i);
    if |r| > 1 {
      assert Succ(i, |r|) != i;
    }
  }

  lemma RemoveNoDup(r: seq<TaskId>, i: nat)
    requires NoDup(r) && i < |r|
    ensures NoDup(r[..i] + r[i + 1..])
  {
    var r' := r[..i] + r[i + 1..];
    forall a, b | 0 <= a < b < |r'| ensures r'[a] != r'[b] {
      var a0 := if a < i then a else a + 1;
      var b0 := if b < i then b else b + 1;
      assert r'[a] == r[a0] && r'[b] == r[b0] && a0 < b0;
    }
  }

  /** The links of one remaining member after `_list_remove` of `r[i]` from
      a ring of at least two tasks. */
  lemma RemoveLinkAt(l: Links, r: seq<TaskId>, i: nat, j: nat)
    requires Represents(l, r) && 2 <= |r| && i < |r| && j < |r| - 1
    ensures r[i] in l.next && r[i] in l.prev && l.next[r[i]] != r[i]
    ensures LinkedAt(LinkRemove(l, r[i]), r[..i] + r[i + 1..], j)
  {
    var n := |r|;
    var t := r[i];
    var r' := r[..i] + r[i + 1..];
    SelfLinkedIffAlone(l, r, i);
    assert LinkedAt(l, r, i);
    var u := l.prev[t];
    var w := l.next[t];
    var l' := LinkRemove(l, t);
    assert l'.next == l.next[u := w] && l'.prev == l.prev[w := u];
    var j0 := if j < i then j else j + 1;
    assert r'[j] == r[j0] && j0 != i;
    assert LinkedAt(l, r, j0);
    var x := r[j0];
    // successor of x
    if j0 == Pred(i, n) {
      assert x == u;
      if i > 0 {
        assert j == i - 1;
        if i == n - 1 {
          assert Succ(j, n - 1) == 0 && r'[0] == r[0];
        } else {
          assert Succ(j, n - 1) == i && r'[i] == r[i + 1];
        }
      } else {
        assert j == n - 2 && Succ(j, n - 1) == 0 && r'[0] == r[1];
      }
    } else {
      assert x != u;
      var s0 := Succ(j0, n);
      assert s0 != i;
      if s0 == 0 {
        assert j0 == n - 1 && j == n - 2 && Succ(j, n - 1) == 0 && r'[0] == r[0];
      } else if j0 + 1 < i {
        assert Succ(j, n - 1) == j + 1 && r'[j + 1] == r[j0 + 1];
      } else {
        assert Succ(j, n - 1) == j + 1 && r'[j + 1] == r[j + 2];
      }
    }
    // predecessor of x
    if j0 == Succ(i, n) {
      assert x == w;
      if i < n - 1 {
        assert j == i;
        if i == 0 {
          assert Pred(j, n - 1) == n - 2 && r'[n - 2] == r[n - 1];
        } else {
          assert Pred(j, n - 1) == i - 1 && r'[i - 1] == r[i - 1];
        }
      } else {
        assert j == 0 && Pred(j, n - 1) == n - 2 && r'[n - 2] == r[n - 2];
      }
    } else {
      assert x != w;
      var p0 := Pred(j0, n);
      assert p0 != i;
      if j0 == 0 {
        assert j == 0 && p0 == n - 1 && Pred(j, n - 1) == n - 2 && r'[n - 2] == r[n - 1];
      } else if j0 - 1 < i {
        assert j == j0 && Pred(j, n - 1) == j - 1 && r'[j - 1] == r[j0 - 1];
      } else {
        assert j == j0 - 1 && j > 0 && Pred(j, n - 1) == j - 1 && r'[j - 1] == r[j0 - 1];
      }
    }
  }

  lemma RemoveRefines(l: Links, r: seq<TaskId>, t: TaskId)
    requires Represents(l, r) && t in r
    ensures t in l.next && t in l.prev
    ensures Represents(LinkRemove(l, t), Remove(r, t))
  {
    var n := |r|;
    var i := IndexOf(r, t);
    var r' := Remove(r, t);
    assert r' == r[..i] + r[i + 1..];
    assert LinkedAt(l, r, i);
    SelfLinkedIffAlone(l, r, i);
    if n == 1 {
      assert r' == [];
    } else {
      RemoveNoDup(r, i);
      assert LinkRemove(l, t).head == Some(r'[0]) by {
        if i == 0 {
          assert r'[0] == r[1];
        } else {
          assert r[0] != t && r'[0] == r[0];
        }
      }
      forall j | 0 <= j < |r'| ensures LinkedAt(LinkRemove(l, t), r', j) {
        RemoveLinkAt(l, r, i, j);
      }
    }
  }

  lemma AdvanceNoDup(r: seq<TaskId>)
    requires NoDup(r) && r != []
    ensures NoDup(Advance(r))
  {
    var n := |r|;
    var r' := Advance(r);
    forall a, b | 0 <= a < b < n ensures r'[a] != r'[b] {
      assert r'[a] == r[Succ(a, n)] && r'[b] == r[Succ(b, n)];
    }
  }

  lemma AdvanceRefines(l: Links, r: seq<TaskId>)
    requires Represents(l, r) && r != []
    ensures l.head.Some? && l.head.value in l.next
    ensures Represents(LinkAdvance(l), Advance(r))
  {
    var n := |r|;
    var r' := Advance(r);
    AdvanceNoDup(r);
    assert LinkedAt(l, r, 0);
    assert r'[0] == r[Succ(0, n)];
    forall j | 0 <= j < n ensures LinkedAt(LinkAdvance(l), r', j) {
      var k := Succ(j, n);
      assert LinkedAt(l, r, k);
      assert r'[j] == r[k];
      assert r'[Succ(j, n)] == r[Succ(k, n)];
      assert r'[Pred(j, n)] == r[Pred(k, n)];
    }
  }

  /** The ring after `_list_add` keeps the head and places the task last in
      rotation order; the others keep their cyclic order. */
  lemma AddPlacesLast(r: seq<TaskId>, t: TaskId)
    ensures Add(r, t)[..|r|] == r && Add(r, t)[|r|] == t
    ensures r != [] ==> Add(r, t)[0] == r[0]
  {
  }

  /** Removing the head makes its successor the head; removing any other
      task keeps the head; removing the only task empties the ring. */
  lemma RemoveHeadCases(r: seq<TaskId>, t: TaskId)
    requires NoDup(r) && t in r
    ensures |r| == 1 ==> Remove(r, t) == []
    ensures r[0] == t ==> Remove(r, t) == r[1..]
    ensures r[0] != t ==> Remove(r, t)[0] == r[0]
  {
  }
}
