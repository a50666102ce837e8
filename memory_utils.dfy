/** The byte comparison both readers use to match a query key against the
    key bytes of a stored record.
 */
module MemoryUtils {
  import opened RecordFormat

  /** Byte equality of the first `n` bytes, stopping at the first difference.
      `compared` is the index of that difference, or `n` when there is none. */
  method ArrEquals(a: seq<Byte>, b: seq<Byte>, n: nat) returns (eq: bool, ghost compared: nat)
    requires n <= |a| && n <= |b|
    ensures eq <==> a[..n] == b[..n]
    ensures eq ==> compared == n
    ensures !eq ==> compared < n && a[..compared] == b[..compared] && a[compared] != b[compared]
  {
    var i := 0;
    while i < n
      invariant i <= n && a[..i] == b[..i]
    {
      if a[i] != b[i] {
        assert a[..n][i] != b[..n][i];
        return false, i;
      }
      assert a[..i + 1] == a[..i] + [a[i]] && b[..i + 1] == b[..i] + [b[i]];
      i := i + 1;
    }
    return true, n;
  }
}
