/** Shared vocabulary of the model: an optional value standing in for a
    nullable pointer, 32-bit machine words with explicit wrap-around, and
    duplicate-freedom of sequences of task identifiers. */
module Common {

  /** A possibly-null reference: `None` is the C `NULL`/`0`. */
  datatype Option<+T> = None | Some(value: T)

  /** Task control blocks live in an arena and are named by their index. */
  type TaskId = nat

  const WORD_MODULUS: int := 0x1_0000_0000

  /** A `uint32_t`. */
  type U32 = x: int | 0 <= x < WORD_MODULUS

  /** `a + b` on `uint32_t`, wrapping modulo 2^32. */
  function Add32(a: U32, b: U32): (r: U32)
    ensures a + b < WORD_MODULUS ==> r == a + b
    ensures a + b >= WORD_MODULUS ==> r == a + b - WORD_MODULUS
  {
    (a + b) % WORD_MODULUS
  }

  /** `x++` on a `uint32_t`. */
  function Inc32(x: U32): (r: U32)
    ensures x < WORD_MODULUS - 1 ==> r == x + 1
    ensures x == WORD_MODULUS - 1 ==> r == 0
  {
    Add32(x, 1)
  }

  /** `x--` on a `uint32_t`. */
  function Dec32(x: U32): (r: U32)
    ensures x > 0 ==> r == x - 1
    ensures x == 0 ==> r == WORD_MODULUS - 1
  {
    if x == 0 then WORD_MODULUS - 1 else x - 1
  }

  /** No task identifier occurs twice. */
  predicate NoDup(s: seq<TaskId>) {
    forall i, j :: 0 <= i < j < |s| ==> s[i] != s[j]
  }

  /** The position of an element known to occur in `s`. */
  function IndexOf(s: seq<TaskId>, x: TaskId): (i: nat)
    requires x in s
    ensures i < |s| && s[i] == x
    ensures forall j :: 0 <= j < i ==> s[j] != x
  {
    if s[0] == x then 0 else 1 + IndexOf(s[1..], x)
  }

  lemma NoDupCount(s: seq<TaskId>, x: TaskId)
    requires NoDup(s)
    ensures multiset(s)[x] <= 1
  {
    if |s| > 0 {
      assert s == [s[0]] + s[1..];
      assert NoDup(s[1..]) by {
        forall i, j | 0 <= i < j < |s[1..]| ensures s[1..][i] != s[1..][j] {
          assert s[1..][i] == s[i + 1] && s[1..][j] == s[j + 1];
        }
      }
      NoDupCount(s[1..], x);
      if s[0] == x {
        assert x !in s[1..] by {
          forall k | 0 <= k < |s[1..]| ensures s[1..][k] != x {
            assert s[1..][k] == s[k + 1];
          }
        }
      }
    }
  }
}
