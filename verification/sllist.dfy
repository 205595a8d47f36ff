/** The singly-linked task lists (`list_push_sl`, `list_pop_head_sl`,
    `list_pop_tail_sl`, and the older `list_pop_sl` that clears the popped
    node's link).

    A list is modelled as the sequence of its tasks from the head: `s[0]` is
    the head and `s[i + 1]` is `s[i]->next`. The pointer-level operations on
    the `next` fields are modelled separately (`SlLinks`) and proved to act on
    that sequence exactly as `Push`, `PopHead` and `PopTail` do. */
module SlLists {
  import opened Common

  /** `list_push_sl`: the task becomes the head. */
  function Push(s: seq<TaskId>, t: TaskId): (s': seq<TaskId>)
    ensures |s'| == |s| + 1 && s'[0] == t && s'[1..] == s
  {
    [t] + s
  }

  /** `list_pop_head_sl` / `list_pop_sl`: `None` on an empty list, otherwise
      the head, leaving the rest. */
  function PopHead(s: seq<TaskId>): (res: (Option<TaskId>, seq<TaskId>))
    ensures s == [] ==> res == (None, s)
    ensures s != [] ==> res.0 == Some(s[0]) && [s[0]] + res.1 == s
  {
    if s == [] then (None, s) else (Some(s[0]), s[1..])
  }

  /** `list_pop_tail_sl`: `None` on an empty list, otherwise the last node,
      i.e. the one pushed earliest. */
  function PopTail(s: seq<TaskId>): (res: (Option<TaskId>, seq<TaskId>))
    ensures s == [] ==> res == (None, s)
    ensures s != [] ==> res.0 == Some(s[|s| - 1]) && res.1 + [s[|s| - 1]] == s
  {
    if s == [] then (None, s) else (Some(s[|s| - 1]), s[..|s| - 1])
  }

  /** Pushing `ts` one after another, first element first. */
  function PushAll(s: seq<TaskId>, ts: seq<TaskId>): seq<TaskId>
    decreases |ts|
  {
    if ts == [] then s else PushAll(Push(s, ts[0]), ts[1..])
  }

  /** The tasks handed out by popping the tail until the list is empty. */
  function DrainTail(s: seq<TaskId>): seq<TaskId>
    decreases |s|
  {
    match PopTail(s)
    case (None, _) => []
    case (Some(t), rest) => [t] + DrainTail(rest)
  }

  /** The tasks handed out by popping the head until the list is empty. */
  function DrainHead(s: seq<TaskId>): seq<TaskId>
    decreases |s|
  {
    match PopHead(s)
    case (None, _) => []
    case (Some(t), rest) => [t] + DrainHead(rest)
  }

  /** LIFO: a pop from the head returns the task pushed last and restores the list. */
  lemma PushPopHead(s: seq<TaskId>, t: TaskId)
    ensures PopHead(Push(s, t)) == (Some(t), s)
  {
  }

  /** Pushing a new task does not change which task a pop from the tail
      returns: the oldest one stays oldest. */
  lemma PushThenPopTail(s: seq<TaskId>, t: TaskId)
    requires s != []
    ensures PopTail(Push(s, t)).0 == PopTail(s).0
    ensures PopTail(Push(s, t)).1 == Push(PopTail(s).1, t)
  {
  }

  /** `ts` back to front. */
  function Reverse(ts: seq<TaskId>): (r: seq<TaskId>)
    ensures |r| == |ts|
    ensures forall i :: 0 <= i < |ts| ==> r[i] == ts[|ts| - 1 - i]
  {
    if ts == [] then [] else Reverse(ts[1..]) + [ts[0]]
  }

  /** Each push goes in front of the ones before it. */
  lemma {:induction false} PushAllReverses(s: seq<TaskId>, ts: seq<TaskId>)
    ensures PushAll(s, ts) == Reverse(ts) + s
    decreases |ts|
  {
    if ts != [] {
      PushAllReverses(Push(s, ts[0]), ts[1..]);
      assert Reverse(ts[1..]) + ([ts[0]] + s) == (Reverse(ts[1..]) + [ts[0]]) + s;
    }
  }

  lemma {:induction false} DrainTailOfReverse(ts: seq<TaskId>)
    ensures DrainTail(Reverse(ts)) == ts
    decreases |ts|
  {
    if ts != [] {
      var r := Reverse(ts);
      assert r[..|r| - 1] == Reverse(ts[1..]);
      DrainTailOfReverse(ts[1..]);
      assert ts == [ts[0]] + ts[1..];
    }
  }

  /** FIFO: tasks pushed in the order `ts` come back out of the tail in
      the same order. */
  lemma FifoOrder(ts: seq<TaskId>)
    ensures DrainTail(PushAll([], ts)) == ts
  {
    PushAllReverses([], ts);
    assert Reverse(ts) + [] == Reverse(ts);
    DrainTailOfReverse(ts);
  }

  /** LIFO: tasks pushed in the order `ts` come back out of the head in
      reverse order. */
  lemma LifoOrder(ts: seq<TaskId>)
    ensures DrainHead(PushAll([], ts)) == Reverse(ts)
  {
    PushAllReverses([], ts);
    assert Reverse(ts) + [] == Reverse(ts);
    DrainHeadIsList(Reverse(ts));
  }

  lemma {:induction false} DrainHeadIsList(s: seq<TaskId>)
    ensures DrainHead(s) == s
    decreases |s|
  {
    if s != [] {
      DrainHeadIsList(s[1..]);
    }
  }

  // ---------------------------------------------------------------------
  // Pointer-level lists.

  /** A list head plus the `next` fields of the TCBs (`None` is `NULL`). */
  datatype SlLinks = SlLinks(head: Option<TaskId>, next: map<TaskId, Option<TaskId>>)

  /** Member `s[i]` links to `s[i + 1]`, or to `NULL` when it is last. */
  predicate SlLinkedAt(l: SlLinks, s: seq<TaskId>, i: nat)
    requires i < |s|
  {
    && s[i] in l.next
    && l.next[s[i]] == (if i + 1 < |s| then Some(s[i + 1]) else None)
  }

  /** The links describe the list `s`. */
  predicate SlRepresents(l: SlLinks, s: seq<TaskId>) {
    && NoDup(s)
    && (if s == [] then l.head == None else l.head == Some(s[0]))
    && (forall i :: 0 <= i < |s| ==> SlLinkedAt(l, s, i))
  }

  /** `list_push_sl`, with its exclusive store taken as succeeding. */
  function LinkPush(l: SlLinks, t: TaskId): SlLinks {
    SlLinks(Some(t), l.next[t := l.head])
  }

  /** `list_pop_head_sl`: the old head is returned and its successor becomes
      the head; the popped node keeps its `next`. */
  function LinkPopHead(l: SlLinks): (Option<TaskId>, SlLinks)
    requires l.head.Some? ==> l.head.value in l.next
  {
    match l.head
    case None => (None, l)
    case Some(h) => (Some(h), l.(head := l.next[h]))
  }

  /** The older `list_pop_sl`: as `LinkPopHead`, and the popped node's
      `next` is cleared. */
  function LinkPopHeadClear(l: SlLinks): (Option<TaskId>, SlLinks)
    requires l.head.Some? ==> l.head.value in l.next
  {
    match l.head
    case None => (None, l)
    case Some(h) => (Some(h), SlLinks(l.next[h], l.next[h := None]))
  }

  lemma PushNoDup(s: seq<TaskId>, t: TaskId)
    requires NoDup(s) && t !in s
    ensures NoDup(Push(s, t))
  {
    var s' := Push(s, t);
    forall i, j | 0 <= i < j < |s'| ensures s'[i] != s'[j] {
      assert s'[j] == s[j - 1];
      if i > 0 { assert s'[i] == s[i - 1]; }
    }
  }

  lemma LinkPushRefines(l: SlLinks, s: seq<TaskId>, t: TaskId)
    requires SlRepresents(l, s) && t !in s
    ensures SlRepresents(LinkPush(l, t), Push(s, t))
  {
    var s' := Push(s, t);
    var l' := LinkPush(l, t);
    PushNoDup(s, t);
    forall i | 0 <= i < |s'| ensures SlLinkedAt(l', s', i) {
      if i > 0 {
        assert SlLinkedAt(l, s, i - 1);
        assert s'[i] == s[i - 1] && s[i - 1] != t;
      }
    }
  }

  lemma TailNoDup(s: seq<TaskId>, a: nat, b: nat)
    requires NoDup(s) && a <= b <= |s|
    ensures NoDup(s[a..b])
  {
    var s' := s[a..b];
    forall i, j | 0 <= i < j < |s'| ensures s'[i] != s'[j] {
      assert s'[i] == s[a + i] && s'[j] == s[a + j];
    }
  }

  lemma LinkPopHeadRefines(l: SlLinks, s: seq<TaskId>)
    requires SlRepresents(l, s)
    ensures l.head.Some? ==> l.head.value in l.next
    ensures LinkPopHead(l).0 == PopHead(s).0
    ensures SlRepresents(LinkPopHead(l).1, PopHead(s).1)
  {
    if s != [] {
      assert SlLinkedAt(l, s, 0);
      TailNoDup(s, 1, |s|);
      var s' := s[1..];
      forall i | 0 <= i < |s'| ensures SlLinkedAt(LinkPopHead(l).1, s', i) {
        assert SlLinkedAt(l, s, i + 1);
      }
    }
  }

  /** The older `list_pop_sl`: same list as `list_pop_head_sl`, and the popped
      node no longer links anywhere. */
  lemma LinkPopHeadClearRefines(l: SlLinks, s: seq<TaskId>)
    requires SlRepresents(l, s)
    ensures l.head.Some? ==> l.head.value in l.next
    ensures LinkPopHeadClear(l).0 == PopHead(s).0
    ensures SlRepresents(LinkPopHeadClear(l).1, PopHead(s).1)
    ensures s != [] ==> LinkPopHeadClear(l).1.next[s[0]] == None
  {
    if s != [] {
      assert SlLinkedAt(l, s, 0);
      TailNoDup(s, 1, |s|);
      var s' := s[1..];
      forall i | 0 <= i < |s'| ensures SlLinkedAt(LinkPopHeadClear(l).1, s', i) {
        assert SlLinkedAt(l, s, i + 1);
        assert s[i + 1] != s[0];
      }
    }
  }

  /** `list_pop_tail_sl`: walk from the head to the node whose `next` is NULL,
      remembering the node before it; unlink the last node from its
      predecessor, or empty the list when the head was the only node. */
  method LinkPopTail(l: SlLinks, ghost s: seq<TaskId>) returns (t: Option<TaskId>, l': SlLinks)
    requires SlRepresents(l, s)
    ensures t == PopTail(s).0
    ensures SlRepresents(l', PopTail(s).1)
  {
    if l.head == None {
      return None, l;
    }
    var prev: Option<TaskId> := None;
    var current := l.head.value;
    ghost var i := 0;
    assert SlLinkedAt(l, s, 0);
    while l.next[current].Some?
      invariant i < |s| && current == s[i]
      invariant current in l.next
      invariant prev == (if i == 0 then None else Some(s[i - 1]))
      decreases |s| - i
    {
      assert SlLinkedAt(l, s, i);
      prev := Some(current);
      current := l.next[current].value;
      i := i + 1;
      assert SlLinkedAt(l, s, i);
    }
    assert SlLinkedAt(l, s, i);
    assert i == |s| - 1;
    var rest := s[..|s| - 1];
    TailNoDup(s, 0, |s| - 1);
    if prev == None {
      l' := l.(head := None);
    } else {
      l' := l.(next := l.next[prev.value := None]);
      forall j | 0 <= j < |rest| ensures SlLinkedAt(l', rest, j) {
        assert SlLinkedAt(l, s, j);
        assert rest[j] == s[j];
        if j + 1 < |rest| {
          assert s[j] != s[i - 1];
        }
      }
    }
    t := Some(current);
  }
}
