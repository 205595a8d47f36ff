/** The array stack: an array of 32-bit signed cells and a stack pointer to
    the first free cell, which grows upward. The pointer is modelled as an
    index into the array; the stack's contents are the cells below it. */
module Stack {

  /** `int32_t`. */
  type Int32 = x: int | -0x8000_0000 <= x < 0x8000_0000

  datatype Stack = Stack(cells: seq<Int32>, sp: nat)

  /** The pointer lies inside the array or one past its end. */
  predicate Valid(s: Stack) {
    s.sp <= |s.cells|
  }

  /** What the stack holds, bottom first. */
  function Contents(s: Stack): seq<Int32>
    requires Valid(s)
  {
    s.cells[..s.sp]
  }

  /** `push`: the value is written where the pointer points and the pointer
      moves up one cell. Nothing checks the bound, so there must be a free
      cell. Only that cell changes, and the value goes on top. */
  function Push(s: Stack, value: Int32): (s': Stack)
    requires s.sp < |s.cells|
    ensures Valid(s') && s'.sp == s.sp + 1 && |s'.cells| == |s.cells|
    ensures Contents(s') == Contents(s) + [value]
    ensures forall i :: 0 <= i < |s.cells| && i != s.sp ==> s'.cells[i] == s.cells[i]
  {
    Stack(s.cells[s.sp := value], s.sp + 1)
  }

  /** `pop`: the pointer moves down one cell and the value there is
      returned. Nothing checks the bound, so the stack must not be empty.
      The top value is returned, the rest stays, and no cell changes. */
  function Pop(s: Stack): (res: (Stack, Int32))
    requires 0 < s.sp <= |s.cells|
    ensures Valid(res.0) && res.0.sp == s.sp - 1 && res.0.cells == s.cells
    ensures Contents(res.0) + [res.1] == Contents(s)
  {
    (Stack(s.cells, s.sp - 1), s.cells[s.sp - 1])
  }

  /** Popping right after a push returns the pushed value and puts the
      pointer and the contents back as they were. */
  lemma PopAfterPush(s: Stack, value: Int32)
    requires s.sp < |s.cells|
    ensures var res := Pop(Push(s, value));
            res.1 == value && res.0.sp == s.sp && Contents(res.0) == Contents(s)
  {
    var res := Pop(Push(s, value));
    assert Contents(res.0) + [res.1] == Contents(s) + [value];
    assert Contents(res.0) == (Contents(res.0) + [res.1])[..s.sp];
  }

  /** Pushing `values` in order, first one first. */
  function PushAll(s: Stack, values: seq<Int32>): (s': Stack)
    requires s.sp + |values| <= |s.cells|
    ensures Valid(s') && s'.sp == s.sp + |values| && |s'.cells| == |s.cells|
    ensures Contents(s') == Contents(s) + values
    decreases |values|
  {
    if values == [] then s
    else
      var s' := PushAll(Push(s, values[0]), values[1..]);
      assert Contents(s) + values == Contents(s) + [values[0]] + values[1..];
      s'
  }

  /** Popping `n` times: the values in the order they come off. */
  function PopN(s: Stack, n: nat): (res: (Stack, seq<Int32>))
    requires n <= s.sp <= |s.cells|
    ensures res.0.sp == s.sp - n && res.0.cells == s.cells && |res.1| == n
    decreases n
  {
    if n == 0 then (s, [])
    else
      var first := Pop(s);
      var rest := PopN(first.0, n - 1);
      (rest.0, [first.1] + rest.1)
  }

  /** `s` reversed: the last element first. */
  function Reversed(s: seq<Int32>): (r: seq<Int32>)
    ensures |r| == |s| && forall i :: 0 <= i < |s| ==> r[i] == s[|s| - 1 - i]
  {
    if s == [] then [] else [s[|s| - 1]] + Reversed(s[..|s| - 1])
  }

  /** From a stack whose top holds `values`, `|values|` pops return them
      last first and leave what lay below. */
  lemma {:induction false} PopNTakesTop(s: Stack, below: seq<Int32>, values: seq<Int32>)
    requires Valid(s) && Contents(s) == below + values
    ensures var res := PopN(s, |values|);
            res.1 == Reversed(values) && Valid(res.0) && Contents(res.0) == below
    decreases |values|
  {
    if values == [] {
      assert Contents(s) == below;
    } else {
      var n := |values|;
      var first := Pop(s);
      assert first.1 == values[n - 1] by {
        assert Contents(s)[s.sp - 1] == values[n - 1];
      }
      assert Contents(first.0) == below + values[..n - 1] by {
        assert Contents(first.0) == Contents(s)[..s.sp - 1];
        assert (below + values)[..s.sp - 1] == below + values[..n - 1];
      }
      PopNTakesTop(first.0, below, values[..n - 1]);
      assert PopN(s, n).1 == [values[n - 1]] + PopN(first.0, n - 1).1;
    }
  }

  /** LIFO: pushing `values` and then popping as many returns them in
      reverse order and leaves the stack holding what it held before. */
  lemma LastInFirstOut(s: Stack, values: seq<Int32>)
    requires Valid(s) && s.sp + |values| <= |s.cells|
    ensures var res := PopN(PushAll(s, values), |values|);
            res.1 == Reversed(values) && res.0.sp == s.sp && Contents(res.0) == Contents(s)
  {
    PopNTakesTop(PushAll(s, values), Contents(s), values);
  }
}
