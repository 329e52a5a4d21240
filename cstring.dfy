/**
 * The public constructors and destructors of the library (cstring.h:149-200,
 * 261-281, 321-372): each new string is allocated with CSTRING_ALC spare
 * bytes and registered in the allocation table, and `delete` takes it out
 * again. The table is the `Registry` passed as `reg`.
 */
module CString {
  import opened CLib
  import opened Buffers
  import opened Allocs

  /** Blanking byte `j` cuts the run starting at `i` at `j`: what `substrn` relies on. */
  lemma CutAt(a: seq<Byte>, i: nat, j: nat)
    requires i < j < |a|
    ensures CStr(a[j := 0][i..]) == CStr(a[i..j])
    ensures NoNul(a[i..j]) ==> CStr(a[j := 0][i..]) == a[i..j]
  {
    var b := a[j := 0][i..];
    CStrCut(b, j - i);
    assert b[..j - i] == a[i..j];
    if NoNul(a[i..j]) {
      CStrOfNoNul(a[i..j]);
    }
  }

  /**
   * `cstring(istr)` (cstring.h:149-200): a new buffer holding the C string
   * `istr` denotes (nothing when `istr` is NULL, modelled as `None`), with
   * CSTRING_ALC bytes of spare capacity, registered in the table.
   */
  method Create(reg: Registry, istr: Option<seq<Byte>>) returns (s: Buffer)
    requires reg.Valid() && reg.table != null
    requires istr.Some? ==> Terminated(istr.value) && StrLen(istr.value) + ALC < UINT32_LIMIT
    requires reg.numAllocs + 1 >= reg.maxAllocs ==> EXT * reg.maxAllocs < UINT32_LIMIT
    modifies reg, reg.table
    ensures fresh(s) && fresh(s.str) && s.Valid()
    ensures s.Content() == (if istr.Some? then CStr(istr.value) else [])
    ensures s.cap == |s.Content()| + ALC
    ensures reg.Valid() && reg.table != null
    ensures Added(old(reg.table[..]), old(reg.numAllocs), reg.table[..], reg.numAllocs, s, s.ind)
    ensures old(reg.numAllocs) + 1 < old(reg.maxAllocs) ==> reg.table == old(reg.table)
    ensures old(reg.numAllocs) + 1 >= old(reg.maxAllocs) ==> fresh(reg.table)
  {
    var content := if istr.Some? then CStr(istr.value) else [];
    s := new Buffer.Alloc(content);
    reg.AddAlloc(s);
  }

  /**
   * `copy(s)` (cstring.h:321-327): a new registered buffer holding the C
   * string `s`'s bytes denote. That is `s`'s content up to its first NUL,
   * all of it when it holds none.
   */
  method Copy(reg: Registry, s: Buffer) returns (r: Buffer)
    requires reg.Valid() && reg.table != null && s.Valid()
    requires Terminated(s.str[..]) && StrLen(s.str[..]) + ALC < UINT32_LIMIT
    requires reg.numAllocs + 1 >= reg.maxAllocs ==> EXT * reg.maxAllocs < UINT32_LIMIT
    modifies reg, reg.table
    ensures fresh(r) && fresh(r.str) && r.Valid()
    ensures r.Content() == CStr(s.str[..])
    ensures s.len < s.cap ==> r.Content() == CStr(s.Content())
    ensures s.len < s.cap && NoNul(s.Content()) ==> r.Content() == s.Content()
    ensures reg.Valid() && reg.table != null
    ensures Added(old(reg.table[..]), old(reg.numAllocs), reg.table[..], reg.numAllocs, r, r.ind)
    ensures old(reg.numAllocs) + 1 < old(reg.maxAllocs) ==> reg.table == old(reg.table)
    ensures old(reg.numAllocs) + 1 >= old(reg.maxAllocs) ==> fresh(reg.table)
  {
    if s.len < s.cap {
      CStrOfBuffer(s.str[..], s.len);
    }
    r := Create(reg, Some(s.str[..]));
  }

  /**
   * `substr(s, i)` (cstring.h:333-339): NULL when `i` is not below the
   * length, otherwise a new registered buffer holding the C string that
   * starts at byte `i`.
   */
  method Substr(reg: Registry, s: Buffer, i: nat) returns (r: Buffer?)
    requires reg.Valid() && reg.table != null && s.Valid()
    requires i < s.len ==> Terminated(s.str[i..]) && StrLen(s.str[i..]) + ALC < UINT32_LIMIT
    requires reg.numAllocs + 1 >= reg.maxAllocs ==> EXT * reg.maxAllocs < UINT32_LIMIT
    modifies reg, reg.table
    ensures r == null <==> s.len <= i
    ensures reg.Valid() && reg.table != null
    ensures r == null ==> unchanged(reg) && reg.table[..] == old(reg.table[..])
    ensures r != null && old(reg.numAllocs) + 1 < old(reg.maxAllocs) ==> reg.table == old(reg.table)
    ensures r != null && old(reg.numAllocs) + 1 >= old(reg.maxAllocs) ==> fresh(reg.table)
    ensures r != null ==> fresh(r) && fresh(r.str) && r.Valid()
    ensures r != null ==> r.Content() == CStr(s.str[i..])
    ensures r != null && s.len < s.cap && NoNul(s.Content()[i..]) ==> r.Content() == s.Content()[i..]
    ensures r != null ==> Added(old(reg.table[..]), old(reg.numAllocs), reg.table[..], reg.numAllocs, r, r.ind)
  {
    if i >= s.len {
      return null;
    }
    if s.len < s.cap {
      CStrOfBuffer(s.str[i..], s.len - i);
      assert s.str[i..][..s.len - i] == s.Content()[i..];
    }
    r := Create(reg, Some(s.str[i..]));
  }

  /**
   * The body of `substrn` once the range is checked (cstring.h:352-367):
   * blank byte `j`, copy the C string starting at `i`, restore byte `j`.
   * Byte `j` must lie inside the storage: when `j == len == cap` the source
   * reads and writes one byte past it (cstring.h:355, 358, 364), so that
   * case is excluded by `j < str.Length`.
   */
  method CopyCut(reg: Registry, str: array<Byte>, i: nat, j: nat) returns (r: Buffer)
    requires reg.Valid() && reg.table != null
    requires i < j < str.Length && j - i + ALC < UINT32_LIMIT
    requires reg.numAllocs + 1 >= reg.maxAllocs ==> EXT * reg.maxAllocs < UINT32_LIMIT
    modifies reg, reg.table, str
    ensures str[..] == old(str[..])
    ensures reg.Valid() && reg.table != null
    ensures fresh(r) && fresh(r.str) && r.Valid()
    ensures r.Content() == CStr(old(str[i..j]))
    ensures NoNul(old(str[i..j])) ==> r.Content() == old(str[i..j])
    ensures Added(old(reg.table[..]), old(reg.numAllocs), reg.table[..], reg.numAllocs, r, r.ind)
    ensures old(reg.numAllocs) + 1 < old(reg.maxAllocs) ==> reg.table == old(reg.table)
    ensures old(reg.numAllocs) + 1 >= old(reg.maxAllocs) ==> fresh(reg.table)
  {
    ghost var a := str[..];
    var rc := str[j];
    str[j] := 0;
    assert str[..] == a[j := 0];
    CutAt(a, i, j);
    CStrOfBuffer(str[i..], j - i);
    r := Create(reg, Some(str[i..]));
    str[j] := rc;
    assert str[..] == a;
  }

  /**
   * `substrn(s, i, j)` (cstring.h:345-372): NULL unless `i < j <= len`;
   * otherwise a new registered buffer holding the C string of bytes
   * `[i, j)`, and `s` is left as it was. The source touches `str[j]`,
   * which lies past the storage when `j == len == cap`; that case is
   * excluded by requiring `j < cap`.
   */
  method Substrn(reg: Registry, s: Buffer, i: nat, j: nat) returns (r: Buffer?)
    requires reg.Valid() && reg.table != null && s.Valid()
    requires i < j <= s.len ==> j < s.cap && j - i + ALC < UINT32_LIMIT
    requires reg.numAllocs + 1 >= reg.maxAllocs ==> EXT * reg.maxAllocs < UINT32_LIMIT
    modifies reg, reg.table, s.str
    ensures s.str[..] == old(s.str[..]) && s.Valid()
    ensures reg.Valid() && reg.table != null
    ensures r == null <==> !(i < j <= s.len)
    ensures r == null ==> unchanged(reg) && reg.table[..] == old(reg.table[..])
    ensures r != null && old(reg.numAllocs) + 1 < old(reg.maxAllocs) ==> reg.table == old(reg.table)
    ensures r != null && old(reg.numAllocs) + 1 >= old(reg.maxAllocs) ==> fresh(reg.table)
    ensures r != null ==> fresh(r) && fresh(r.str) && r.Valid()
    ensures r != null ==> r.Content() == CStr(s.Content()[i..j])
    ensures r != null && NoNul(s.Content()[i..j]) ==> r.Content() == s.Content()[i..j]
    ensures r != null ==> Added(old(reg.table[..]), old(reg.numAllocs), reg.table[..], reg.numAllocs, r, r.ind)
  {
    if i < j && j <= s.len {
      assert s.str[i..j] == s.str[..s.len][i..j];
      var sub := CopyCut(reg, s.str, i, j);
      return sub;
    }
    return null;
  }

  /**
   * `delete(s)` (cstring.h:261-281): take `s` out of the table. The memory
   * itself is reclaimed by the garbage collector here.
   */
  method Delete(reg: Registry, s: Buffer)
    requires reg.Valid() && reg.table != null
    modifies reg.table
    ensures reg.Valid() && reg.table != null
    ensures reg.table[..] == Deregistered(old(reg.table[..]), s, s.ind)
  {
    reg.RemoveAlloc(s);
  }
}
