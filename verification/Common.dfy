// Vocabulary shared by the other modules: bytes, the width of the machine's
// sizes, and optional results.
module Common {

  newtype Byte = b: int | 0 <= b < 256

  // One more than the largest size_t (64-bit builds) and uint32_t.
  const SIZE_LIMIT: nat := 0x1_0000_0000_0000_0000
  const UINT32_LIMIT: nat := 0x1_0000_0000

  const MAX_SIZE_T: nat := SIZE_LIMIT - 1

  datatype Option<+T> = None | Some(value: T)

  function Min(a: nat, b: nat): nat {
    if a < b then a else b
  }

  // Sums and differences of size_t values wrap around.
  function Add64(a: nat, b: nat): nat {
    (a + b) % SIZE_LIMIT
  }

  function Sub64(a: nat, b: nat): nat {
    (a - b) % SIZE_LIMIT
  }

  // The test CHECK_UINT_OVERFLOW_SUM of Helpers/mem.h.
  predicate SumOverflows(a: nat, b: nat) {
    Add64(a, b) < a || Add64(a, b) < b
  }

  lemma SumOverflowsMeaning(a: nat, b: nat)
    requires a < SIZE_LIMIT && b < SIZE_LIMIT
    ensures SumOverflows(a, b) <==> a + b >= SIZE_LIMIT
  {
  }

  // ---- Sequence facts --------------------------------------------------------

  lemma ConcatAssoc<T>(a: seq<T>, b: seq<T>, c: seq<T>)
    ensures a + b + c == a + (b + c)
  {
  }

  lemma SliceOfSlice<T>(s: seq<T>, a: nat, b: nat, i: nat, j: nat)
    requires a <= b <= |s| && i <= j <= b - a
    ensures s[a..b][i..j] == s[a + i..a + j]
  {
    var t := s[a..b];
    forall k | 0 <= k < j - i
      ensures t[i..j][k] == s[a + i..a + j][k]
    {
      assert t[i..j][k] == t[i + k] == s[a + (i + k)];
    }
  }

  lemma SliceOfSuffix<T>(s: seq<T>, k: nat, n: nat)
    requires k + n <= |s|
    ensures s[k..][..n] == s[k..k + n]
  {
  }
}
