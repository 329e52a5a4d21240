/**
 * The C library string functions the buffer operations rely on (strlen and
 * strstr, ISO C11 sections 7.24.6.3 and 7.24.5.7), stated over byte runs,
 * together with the value types shared by the rest of the model.
 *
 * A `char *` argument is modelled as the run of bytes it points to, up to the
 * end of its allocation. The C string it denotes is `CStr(run)`: the bytes
 * before the first NUL. strlen and strstr are only defined on a run that
 * holds a NUL (`Terminated`); every caller in the model requires that.
 */
module CLib {

  /** A C `char`, as an unsigned byte. */
  newtype Byte = b: int | 0 <= b < 0x100

  datatype Option<T> = None | Some(value: T)

  /** 2^32: every `uint32` of the source is below it. */
  const UINT32_LIMIT: nat := 0x1_0000_0000

  /** 2^31: every `int` of the source is in [-INT32_LIMIT, INT32_LIMIT). */
  const INT32_LIMIT: nat := 0x8000_0000

  predicate NoNul(s: seq<Byte>)
  {
    forall k :: 0 <= k < |s| ==> s[k] != 0
  }

  /** strlen: the number of bytes before the first NUL (all of `a` when it has none). */
  function StrLen(a: seq<Byte>): (n: nat)
    ensures n <= |a|
    ensures NoNul(a[..n])
    ensures n < |a| ==> a[n] == 0
  {
    if |a| == 0 || a[0] == 0 then 0
    else
      var n := 1 + StrLen(a[1..]);
      assert a[..n] == [a[0]] + a[1..][..n - 1];
      n
  }

  /** The run holds a NUL, so strlen and strstr stop inside it. */
  predicate Terminated(a: seq<Byte>)
  {
    StrLen(a) < |a|
  }

  /** The C string a run denotes: its longest NUL-free prefix. */
  function CStr(a: seq<Byte>): (r: seq<Byte>)
    ensures NoNul(r) && |r| <= |a| && r == a[..|r|]
    ensures |r| < |a| ==> a[|r|] == 0
  {
    a[..StrLen(a)]
  }

  /** A NUL-free prefix followed by a NUL (or by the end) is the C string. */
  lemma CStrIs(a: seq<Byte>, n: nat)
    requires n <= |a| && NoNul(a[..n]) && (n < |a| ==> a[n] == 0)
    ensures CStr(a) == a[..n]
  {
  }

  /** A run without NUL is its own C string. */
  lemma CStrOfNoNul(a: seq<Byte>)
    requires NoNul(a)
    ensures CStr(a) == a
  {
    CStrIs(a, |a|);
  }

  /** Cutting a run at a NUL does not change the C string it denotes. */
  lemma CStrCut(a: seq<Byte>, m: nat)
    requires m < |a| && a[m] == 0
    ensures CStr(a) == CStr(a[..m])
  {
    var n := StrLen(a);
    assert a[..m][..n] == a[..n];
    CStrIs(a[..m], n);
  }

  /**
   * A run with a NUL at `n` is terminated, and its C string is that of its
   * first `n` bytes; it is those bytes exactly when they hold no NUL. This is
   * the C string of a buffer whose length is below its capacity.
   */
  lemma CStrOfBuffer(a: seq<Byte>, n: nat)
    requires n < |a| && a[n] == 0
    ensures Terminated(a)
    ensures CStr(a) == CStr(a[..n])
    ensures NoNul(a[..n]) ==> CStr(a) == a[..n]
  {
    CStrCut(a, n);
    if NoNul(a[..n]) {
      CStrOfNoNul(a[..n]);
    }
  }

  /** `n` occurs in `h` starting at offset `p`. */
  predicate OccursAt(h: seq<Byte>, n: seq<Byte>, p: nat)
  {
    p + |n| <= |h| && h[p..p + |n|] == n
  }

  /** Dropping the first byte of the haystack moves every occurrence one offset down. */
  lemma OccursShift(h: seq<Byte>, n: seq<Byte>)
    requires |h| > 0
    ensures forall q: nat :: OccursAt(h[1..], n, q) <==> OccursAt(h, n, q + 1)
  {
    forall q: nat ensures OccursAt(h[1..], n, q) <==> OccursAt(h, n, q + 1) {
      if q + |n| <= |h[1..]| {
        assert h[1..][q..q + |n|] == h[q + 1..q + 1 + |n|];
      }
    }
  }

  /**
   * strstr, as the offset it returns relative to the haystack: the least
   * offset at which `n` occurs in `h`, or -1 when it occurs nowhere. The
   * empty needle occurs at offset 0.
   */
  function StrStr(h: seq<Byte>, n: seq<Byte>): (r: int)
    ensures -1 <= r <= |h|
    ensures 0 <= r ==> OccursAt(h, n, r)
    ensures 0 <= r ==> forall q: nat :: q < r ==> !OccursAt(h, n, q)
    ensures r == -1 <==> forall q: nat :: !OccursAt(h, n, q)
    decreases |h|
  {
    if OccursAt(h, n, 0) then 0
    else if |h| == 0 then -1
    else
      var r := StrStr(h[1..], n);
      OccursShift(h, n);
      assert forall q: nat :: 0 < q ==> (OccursAt(h, n, q) <==> OccursAt(h[1..], n, q - 1));
      if r == -1 then -1 else r + 1
  }

  /** What a C `int` holds after the conversion from a `uint32` (two's-complement wrap). */
  function AsInt32(x: nat): (r: int)
    requires x < UINT32_LIMIT
    ensures -(INT32_LIMIT as int) <= r < INT32_LIMIT
    ensures (x - r) % UINT32_LIMIT == 0
    ensures x < INT32_LIMIT ==> r == x
  {
    if x < INT32_LIMIT then x else x - UINT32_LIMIT
  }
}
