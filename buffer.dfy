/**
 * The growable byte buffer `struct string` (cstring.h:23-28) and the
 * operations that read or change one buffer in place.
 *
 * `str` is the storage of `cap` bytes, `len` the number of content bytes and
 * `ind` the registry slot the buffer was last given. Every byte at or beyond
 * `len` is 0 (the zero tail). The source does NOT keep a spare byte for the
 * terminator: after an insert that exactly fills the storage, `len == cap`.
 */
module Buffers {
  import opened CLib

  /** CSTRING_ALC: the slack added to every allocation. */
  const ALC: nat := 15

  /** CSTRING_ERR: what the single-byte operations return for an index out of range. */
  const ERR: Byte := 0

  /** The content after inserting `c` at offset `k`. */
  function Spliced(s: seq<Byte>, c: seq<Byte>, k: nat): (r: seq<Byte>)
    requires k <= |s|
    ensures |r| == |s| + |c|
    ensures forall p :: 0 <= p < k ==> r[p] == s[p]
    ensures forall p :: 0 <= p < |c| ==> r[k + p] == c[p]
    ensures forall p :: k <= p < |s| ==> r[p + |c|] == s[p]
  {
    s[..k] + c + s[k..]
  }

  /** The content after deleting the byte at offset `i`. */
  function Removed(s: seq<Byte>, i: nat): (r: seq<Byte>)
    requires i < |s|
    ensures |r| == |s| - 1
    ensures forall p :: 0 <= p < i ==> r[p] == s[p]
    ensures forall p :: i <= p < |r| ==> r[p] == s[p + 1]
  {
    s[..i] + s[i + 1..]
  }

  /** Inserting at either end is concatenation. */
  lemma SplicedAtEnds(s: seq<Byte>, c: seq<Byte>)
    ensures Spliced(s, c, 0) == c + s
    ensures Spliced(s, c, |s|) == s + c
  {
    assert s[..0] == [] && s[0..] == s;
    assert s[..|s|] == s && s[|s|..] == [];
  }

  /** Removing a byte just inserted gives back the original content. */
  lemma {:induction false} RemovedUndoesSplice(s: seq<Byte>, b: Byte, k: nat)
    requires k <= |s|
    ensures Removed(Spliced(s, [b], k), k) == s
  {
    var r := Removed(Spliced(s, [b], k), k);
    assert forall p :: 0 <= p < |s| ==> r[p] == s[p];
  }

  /**
   * `s` is the storage image `a` after `i` passes of the right shift of
   * `insert`: the bytes of `[k, n)` sit `i` positions right, bytes before `k`
   * and from `n + i` on are untouched, and `[k, k + i)` is unspecified.
   */
  ghost predicate ShiftedBy(s: seq<Byte>, a: seq<Byte>, k: nat, n: nat, i: nat)
  {
    |s| == |a| && k <= n && n + i <= |a| &&
    (forall p :: 0 <= p < k ==> s[p] == a[p]) &&
    (forall p :: k + i <= p < n + i ==> s[p] == a[p - i]) &&
    (forall p :: n + i <= p < |a| ==> s[p] == a[p])
  }

  /** `s` is `b` after one pass: the bytes of `[k + i, n + i)` moved one position right. */
  ghost predicate OnePass(s: seq<Byte>, b: seq<Byte>, k: nat, n: nat, i: nat)
  {
    |s| == |b| && k <= n && n + i < |b| &&
    (forall p :: 0 <= p <= k + i ==> s[p] == b[p]) &&
    (forall p :: k + i < p <= n + i ==> s[p] == b[p - 1]) &&
    (forall p :: n + i < p < |b| ==> s[p] == b[p])
  }

  /** `s` is `b` with `c` written at offset `k`. */
  ghost predicate WrittenAt(s: seq<Byte>, b: seq<Byte>, c: seq<Byte>, k: nat)
  {
    |s| == |b| && k + |c| <= |b| &&
    (forall p :: 0 <= p < k ==> s[p] == b[p]) &&
    (forall p :: 0 <= p < |c| ==> s[k + p] == c[p]) &&
    (forall p :: k + |c| <= p < |b| ==> s[p] == b[p])
  }

  lemma ShiftedByNone(a: seq<Byte>, k: nat, i: nat)
    requires k + i <= |a|
    ensures ShiftedBy(a, a, k, k, i)
  {
  }

  /** One more pass of the shift advances the image by one position. */
  lemma {:induction false} PassAdvances(b: seq<Byte>, s: seq<Byte>, a: seq<Byte>, k: nat, n: nat, i: nat)
    requires ShiftedBy(b, a, k, n, i) && OnePass(s, b, k, n, i)
    ensures ShiftedBy(s, a, k, n, i + 1)
  {
    forall p | k + i + 1 <= p < n + i + 1
      ensures s[p] == a[p - (i + 1)]
    {
      assert s[p] == b[p - 1] && b[p - 1] == a[(p - 1) - i];
    }
  }

  /**
   * Shifting the suffix right by `|c|` and then writing `c` into the gap
   * leaves the splice in the first `n + |c|` bytes and the rest untouched.
   */
  lemma {:induction false} ShiftThenWrite(a: seq<Byte>, a1: seq<Byte>, b: seq<Byte>, c: seq<Byte>, k: nat, n: nat)
    requires ShiftedBy(a1, a, k, n, |c|) && WrittenAt(b, a1, c, k)
    ensures b[..n + |c|] == Spliced(a[..n], c, k)
    ensures forall p :: n + |c| <= p < |b| ==> b[p] == a[p]
  {
    var want := Spliced(a[..n], c, k);
    forall p | 0 <= p < n + |c|
      ensures b[p] == want[p]
    {
      if p < k {
      } else if p < k + |c| {
        assert b[k + (p - k)] == c[p - k];
      } else {
        assert want[(p - |c|) + |c|] == a[p - |c|];
      }
    }
  }

  class Buffer {
    var str: array<Byte>
    var cap: nat
    var len: nat
    var ind: nat

    ghost predicate Valid()
      reads this, str
    {
      str.Length == cap && len <= cap && cap < UINT32_LIMIT &&
      forall p :: len <= p < cap ==> str[p] == 0
    }

    /** The logical content: the first `len` bytes of the storage. */
    ghost function Content(): seq<Byte>
      reads this, str
      requires Valid()
    {
      str[..len]
    }

    /**
     * The allocation and copy of `cstring` (cstring.h:163-190): `|init| + ALC`
     * zeroed bytes, the first `|init|` of them set to `init`; `ind` starts at
     * 0 as calloc leaves it.
     */
    constructor Alloc(init: seq<Byte>)
      requires |init| + ALC < UINT32_LIMIT
      ensures Valid() && fresh(str)
      ensures Content() == init && cap == |init| + ALC && ind == 0
    {
      var mem := |init| + ALC;
      str := new Byte[mem](p => if 0 <= p < |init| then init[p] else 0);
      cap := mem;
      len := |init|;
      ind := 0;
    }

    /** `cap(s)`: the capacity, as the C `int` it is returned as. */
    function Cap(): (r: int)
      reads this, str
      requires Valid()
      ensures r == AsInt32(str.Length)
      ensures str.Length < INT32_LIMIT ==> r == str.Length
    {
      AsInt32(cap)
    }

    /** `len(s)`: the content length, as the C `int` it is returned as. */
    function Len(): (r: int)
      reads this, str
      requires Valid()
      ensures r == AsInt32(|Content()|)
      ensures |Content()| < INT32_LIMIT ==> r == |Content()|
    {
      AsInt32(len)
    }

    /** `str(s)`: the storage itself; its first `len` bytes are the content, the rest are 0. */
    function Str(): (r: array<Byte>)
      reads this, str
      requires Valid()
      ensures r == str && r.Length == cap
      ensures r[..len] == Content()
      ensures forall p :: len <= p < r.Length ==> r[p] == 0
    {
      str
    }

    /** `get(s, i)`: the byte at `i`, or ERR when `i` is not below the length. */
    function Get(i: nat): (r: Byte)
      reads this, str
      requires Valid()
      ensures i < |Content()| ==> r == Content()[i]
      ensures |Content()| <= i ==> r == ERR
    {
      if i >= len then ERR else str[i]
    }

    /** `find(s, c)`: the first offset of `c`'s C string in this buffer's C string, or -1 (CSTRING_EOL). */
    function Find(c: seq<Byte>): (r: int)
      reads this, str
      requires Terminated(str[..]) && Terminated(c)
      ensures -1 <= r <= StrLen(str[..])
      ensures 0 <= r ==> OccursAt(CStr(str[..]), CStr(c), r)
      ensures 0 <= r ==> forall q: nat :: q < r ==> !OccursAt(CStr(str[..]), CStr(c), q)
      ensures r == -1 <==> forall q: nat :: !OccursAt(CStr(str[..]), CStr(c), q)
      ensures CStr(c) == [] ==> r == 0
    {
      StrStr(CStr(str[..]), CStr(c))
    }

    /** `clear(s)`: zero all `cap` bytes and empty the content; the storage is kept. */
    method Clear()
      requires Valid()
      modifies this`len, str
      ensures Valid() && str == old(str) && cap == old(cap)
      ensures Content() == []
      ensures forall p :: 0 <= p < cap ==> str[p] == 0
    {
      forall p | 0 <= p < cap {
        str[p] := 0;
      }
      len := 0;
    }

    /**
     * `set(s, i, c)`: overwrite the byte at `i` and return the byte it held;
     * out of range, return ERR and change nothing. `c` may be 0, which puts
     * a NUL inside the content.
     */
    method Set(i: nat, c: Byte) returns (r: Byte)
      requires Valid()
      modifies str
      ensures Valid()
      ensures r == old(Get(i))
      ensures i < len ==> str[..] == old(str[..])[i := c]
      ensures i < len ==> Get(i) == c && Content() == old(Content())[i := c]
      ensures len <= i ==> str[..] == old(str[..])
    {
      if i >= len {
        return ERR;
      }
      r := str[i];
      str[i] := c;
    }

    /**
     * `rem(s, i)`: delete the byte at `i` by shifting the rest of the content
     * left by one, and return it; out of range, return ERR and change nothing.
     * The shift copies `str[len]` into `str[len - 1]`; the source reads
     * outside the storage when `len == cap`, so that case is required away.
     */
    method Rem(i: nat) returns (r: Byte)
      requires Valid()
      requires i < len ==> len < cap
      modifies this`len, str
      ensures Valid() && str == old(str) && cap == old(cap)
      ensures r == old(Get(i))
      ensures i < old(len) ==> Content() == Removed(old(Content()), i)
      ensures old(len) <= i ==> len == old(len) && str[..] == old(str[..])
    {
      if i >= len {
        return ERR;
      }
      ghost var a0 := str[..];
      r := str[i];
      var j := i;
      while j < len
        modifies str
        invariant i <= j <= len
        invariant forall p :: 0 <= p < i ==> str[p] == a0[p]
        invariant forall p :: i <= p < j ==> str[p] == a0[p + 1]
        invariant forall p :: j <= p < cap ==> str[p] == a0[p]
      {
        str[j] := str[j + 1];
        j := j + 1;
      }
      len := len - 1;
      assert str[..len] == Removed(a0[..len + 1], i);
    }

    /**
     * One pass of the in-place shift of `insert` (cstring.h:403-405): the
     * bytes at `[k + i, len + i)` move one position right.
     */
    method ShiftPass(k: nat, i: nat)
      requires str.Length == cap && k < len && len + i < cap
      modifies str
      ensures OnePass(str[..], old(str[..]), k, len, i)
    {
      var j := len;
      while j > k
        modifies str
        invariant k <= j <= len
        invariant forall p :: 0 <= p <= j + i ==> str[p] == old(str[p])
        invariant forall p :: j + i < p <= len + i ==> str[p] == old(str[p - 1])
        invariant forall p :: len + i < p < cap ==> str[p] == old(str[p])
      {
        str[j + i] := str[j + i - 1];
        j := j - 1;
      }
    }

    /**
     * The in-place shift of `insert` (cstring.h:399-407): `n` passes, after
     * which the suffix `[k, len)` sits at `[k + n, len + n)`.
     */
    method ShiftRight(k: nat, n: nat)
      requires str.Length == cap && k < len && len + n <= cap
      modifies str
      ensures ShiftedBy(str[..], old(str[..]), k, len, n)
    {
      ghost var a0 := str[..];
      var i := 0;
      while i < n
        modifies str
        invariant 0 <= i <= n
        invariant ShiftedBy(str[..], a0, k, len, i)
      {
        ghost var b := str[..];
        ShiftPass(k, i);
        PassAdvances(b, str[..], a0, k, len, i);
        i := i + 1;
      }
    }

    /**
     * The copy of `insert` (cstring.h:410-412): the bytes of `c`'s C string
     * are written at offset `k`; nothing else changes.
     */
    method CopyIn(c: seq<Byte>, k: nat)
      requires str.Length == cap && Terminated(c) && k + StrLen(c) <= cap
      modifies str
      ensures WrittenAt(str[..], old(str[..]), CStr(c), k)
    {
      var reqLen := StrLen(c);
      var i := 0;
      while i < reqLen
        modifies str
        invariant 0 <= i <= reqLen
        invariant forall p :: 0 <= p < k ==> str[p] == old(str[p])
        invariant forall p :: 0 <= p < i ==> str[k + p] == c[p]
        invariant forall p :: k + reqLen <= p < cap ==> str[p] == old(str[p])
      {
        str[k + i] := c[i];
        i := i + 1;
      }
    }

    /**
     * The in-place branch of `insert` (cstring.h:397-415): shift the suffix
     * right by `|CStr(c)|` (only when `k < len`), copy the bytes of `c` into
     * the gap and extend the length.
     */
    method InsertInPlace(c: seq<Byte>, k: nat)
      requires Valid() && Terminated(c) && k <= len && len + StrLen(c) <= cap
      modifies this`len, str
      ensures Valid() && cap == old(cap) && str == old(str)
      ensures Content() == Spliced(old(Content()), CStr(c), k)
    {
      var reqLen := StrLen(c);
      ghost var a0 := str[..];
      if k < len {
        ShiftRight(k, reqLen);
      } else {
        ShiftedByNone(a0, k, reqLen);
      }
      ghost var a1 := str[..];
      CopyIn(c, k);
      ShiftThenWrite(a0, a1, str[..], CStr(c), k, len);
      len := len + reqLen;
    }

    /**
     * The reallocation of `insert` (cstring.h:418-437): new zeroed storage of
     * `newMem` bytes, into which the content is copied.
     */
    method Reallocate(newMem: nat)
      requires Valid() && len <= newMem < UINT32_LIMIT
      modifies this`str, this`cap
      ensures Valid() && fresh(str) && cap == newMem
      ensures Content() == old(Content())
    {
      var newStr := new Byte[newMem](_ => 0);
      var i := 0;
      while i < len
        modifies newStr
        invariant 0 <= i <= len
        invariant forall p :: 0 <= p < i ==> newStr[p] == str[p]
        invariant forall p :: i <= p < newMem ==> newStr[p] == 0
      {
        newStr[i] := str[i];
        i := i + 1;
      }
      assert newStr[..len] == str[..len];
      str := newStr;
      cap := newMem;
    }

    /**
     * `insert(s, c, k)`: insert the C string of `c` at offset `k`. An offset
     * beyond the length fails with nothing changed. When the capacity holds
     * `len + |CStr(c)|` bytes the insert happens in place; otherwise the
     * storage is replaced by one of `len + |CStr(c)| + ALC` bytes and the
     * insert is retried once, which then takes the in-place branch. The
     * copy into the new storage counts with a C `int` (cstring.h:427), so a
     * reallocation is only defined for a length below 2^31; the sum
     * `len + |CStr(c)|` (cstring.h:394) must not wrap, or it would wrongly
     * select the in-place branch at cstring.h:397.
     */
    method Insert(c: seq<Byte>, k: nat) returns (ok: bool)
      requires Valid()
      requires k <= len ==> Terminated(c)
      requires k <= len && len + StrLen(c) > cap ==> len + StrLen(c) + ALC < UINT32_LIMIT
      requires k <= len && len + StrLen(c) > cap ==> len < INT32_LIMIT
      modifies this`str, this`cap, this`len, str
      ensures Valid() && ind == old(ind)
      ensures ok <==> k <= old(len)
      ensures ok ==> Content() == Spliced(old(Content()), CStr(c), k)
      ensures !ok ==> str == old(str) && len == old(len) && str[..] == old(str[..])
      ensures cap == if !ok || old(len) + StrLen(c) <= old(cap) then old(cap)
                     else old(len) + StrLen(c) + ALC
      ensures cap >= old(cap)
      ensures str == old(str) || fresh(str)
      decreases if len + StrLen(c) <= cap then 0 else 1
    {
      if k > len {
        return false;
      }
      var reqLen := StrLen(c);
      if cap >= len + reqLen {
        InsertInPlace(c, k);
      } else {
        Reallocate(len + reqLen + ALC);
        var retried := Insert(c, k);
      }
      return true;
    }

    /** `append(s, c)`: insert at the end. */
    method Append(c: seq<Byte>) returns (ok: bool)
      requires Valid() && Terminated(c)
      requires len + StrLen(c) > cap ==> len + StrLen(c) + ALC < UINT32_LIMIT
      requires len + StrLen(c) > cap ==> len < INT32_LIMIT
      modifies this`str, this`cap, this`len, str
      ensures Valid() && ind == old(ind) && ok
      ensures Content() == old(Content()) + CStr(c)
      ensures cap == if old(len) + StrLen(c) <= old(cap) then old(cap) else old(len) + StrLen(c) + ALC
      ensures str == old(str) || fresh(str)
    {
      SplicedAtEnds(Content(), CStr(c));
      ok := Insert(c, len);
    }

    /** `prepend(s, c)`: insert at offset 0. */
    method Prepend(c: seq<Byte>) returns (ok: bool)
      requires Valid() && Terminated(c)
      requires len + StrLen(c) > cap ==> len + StrLen(c) + ALC < UINT32_LIMIT
      requires len + StrLen(c) > cap ==> len < INT32_LIMIT
      modifies this`str, this`cap, this`len, str
      ensures Valid() && ind == old(ind) && ok
      ensures Content() == CStr(c) + old(Content())
      ensures cap == if old(len) + StrLen(c) <= old(cap) then old(cap) else old(len) + StrLen(c) + ALC
      ensures str == old(str) || fresh(str)
    {
      SplicedAtEnds(Content(), CStr(c));
      ok := Insert(c, 0);
    }

    /**
     * `concat(s1, s2)`: append the C string held in `other`'s storage.
     * `other` must own storage distinct from this buffer's: in the source
     * `concat(s, s)` shifts, or frees, the bytes it is still reading.
     */
    method Concat(other: Buffer) returns (ok: bool)
      requires Valid() && other.str != str && Terminated(other.str[..])
      requires len + StrLen(other.str[..]) > cap ==> len + StrLen(other.str[..]) + ALC < UINT32_LIMIT
      requires len + StrLen(other.str[..]) > cap ==> len < INT32_LIMIT
      modifies this`str, this`cap, this`len, str
      ensures Valid() && ind == old(ind) && ok
      ensures Content() == old(Content()) + CStr(old(other.str[..]))
      ensures old(other.Valid() && other.len < other.cap && NoNul(other.Content())) ==>
                Content() == old(Content()) + old(other.Content())
      ensures other.str[..] == old(other.str[..])
      ensures cap == if old(len) + StrLen(old(other.str[..])) <= old(cap) then old(cap)
                     else old(len) + StrLen(old(other.str[..])) + ALC
      ensures str == old(str) || fresh(str)
    {
      if other.Valid() && other.len < other.cap {
        CStrOfBuffer(other.str[..], other.len);
      }
      ok := Append(other.str[..]);
    }
  }
}
