/**
 * The allocation registry (cstring.h:32-34, 69-141, 287-313, 570-585): a
 * table of slots, each holding a buffer or null, with a high-water index
 * `numAllocs` and a size `maxAllocs`. It is the process-wide state the C
 * code keeps in globals; here it is one object passed to whoever needs it.
 * The mutex around it is not modelled: every operation runs sequentially.
 */
module Allocs {
  import opened CLib
  import opened Buffers

  /** CSTRING_EXT: the factor by which a full table grows. */
  const EXT: nat := 2

  /** The initial table size, CSTRING_ALC in `cstring_init` (cstring.h:575). */
  const INIT_ALLOCS: nat := 15

  function Max(a: nat, b: nat): (m: nat)
    ensures m >= a && m >= b && (m == a || m == b)
  {
    if a < b then b else a
  }

  function Nulls(n: nat): (r: seq<Buffer?>)
    ensures |r| == n && forall q :: 0 <= q < n ==> r[q] == null
  {
    seq(n, _ => null)
  }

  /** The table invariant: `num` is a slot index and every slot above it is empty. */
  ghost predicate HighWater(slots: seq<Buffer?>, num: nat)
  {
    num < |slots| && forall q :: num < q < |slots| ==> slots[q] == null
  }

  /** The first-fit scan of `add_alloc`: the lowest empty slot, or `|slots|` when none is. */
  function FirstFree(slots: seq<Buffer?>): (r: nat)
    ensures r <= |slots|
    ensures r < |slots| ==> slots[r] == null
    ensures forall q :: 0 <= q < r ==> slots[q] != null
  {
    if |slots| == 0 || slots[0] == null then 0 else 1 + FirstFree(slots[1..])
  }

  /**
   * The table `add_alloc` scans: the current one when `num + 1 < |slots|`,
   * otherwise the current one extended by EXT to `EXT * |slots|` slots, the
   * new ones empty.
   */
  function Grown(slots: seq<Buffer?>, num: nat): (r: seq<Buffer?>)
    ensures num + 1 < |slots| ==> r == slots
    ensures num + 1 >= |slots| ==> |r| == EXT * |slots|
    ensures |slots| <= |r| && r[..|slots|] == slots
    ensures forall q :: |slots| <= q < |r| ==> r[q] == null
  {
    if num + 1 < |slots| then slots else slots + Nulls(EXT * |slots| - |slots|)
  }

  /**
   * What `add_alloc` does to the table state: slot `ind` is the lowest empty
   * slot of the grown table, it now holds `s`, and the high-water index is
   * raised to `ind` if it was below.
   */
  ghost function Added(slots: seq<Buffer?>, num: nat, slots': seq<Buffer?>, num': nat, s: Buffer, ind: nat): (r: bool)
    ensures r ==> ind < |slots'| && slots'[ind] == s && num' >= num && num' >= ind
    ensures r ==> |slots'| == if num + 1 < |slots| then |slots| else EXT * |slots|
    ensures r ==> forall q :: 0 <= q < ind ==> slots'[q] != null
  {
    var g := Grown(slots, num);
    ind == FirstFree(g) && ind < |g| && slots' == g[ind := s] && num' == Max(num, ind)
  }

  /** Under the invariant, the scan finds a slot no higher than `num + 1`. */
  lemma ScanSucceeds(slots: seq<Buffer?>, num: nat)
    requires HighWater(slots, num) && num + 1 < |slots|
    ensures FirstFree(slots) <= num + 1
  {
    assert slots[num + 1] == null;
  }

  /**
   * After growth the invariant still holds and the retry's test passes, so
   * `add_alloc` recurses at most once.
   */
  lemma GrowthRetriesOnce(slots: seq<Buffer?>, num: nat)
    requires HighWater(slots, num)
    ensures HighWater(Grown(slots, num), num)
    ensures num + 1 < |Grown(slots, num)|
  {
  }

  /**
   * `add_alloc` keeps the invariant, puts `s` in a slot that was empty, keeps
   * every other slot (in particular every registered buffer at its index)
   * and never scans past `num + 1`.
   */
  lemma {:induction false} AddedKeepsTable(slots: seq<Buffer?>, num: nat, slots': seq<Buffer?>, num': nat, s: Buffer, ind: nat)
    requires HighWater(slots, num) && Added(slots, num, slots', num', s, ind)
    ensures HighWater(slots', num')
    ensures ind <= num + 1 && ind < |slots'| && slots'[ind] == s
    ensures ind < |slots| ==> slots[ind] == null
    ensures forall q :: 0 <= q < ind ==> slots[q] != null
    ensures forall q :: 0 <= q < |slots| && q != ind ==> slots'[q] == slots[q]
    ensures |slots'| == if num + 1 < |slots| then |slots| else EXT * |slots|
  {
    var g := Grown(slots, num);
    GrowthRetriesOnce(slots, num);
    ScanSucceeds(g, num);
    forall q | 0 <= q < |slots|
      ensures g[q] == slots[q]
    {
      assert g[..|slots|][q] == slots[q];
    }
  }

  /** The lowest slot holding `s`, or `|slots|` when none does. */
  function SlotOf(slots: seq<Buffer?>, s: Buffer): (r: nat)
    ensures r <= |slots|
    ensures r < |slots| ==> slots[r] == s
    ensures forall q :: 0 <= q < r ==> slots[q] != s
  {
    if |slots| == 0 || slots[0] == s then 0 else 1 + SlotOf(slots[1..], s)
  }

  /**
   * What `remove_alloc` does to the table: clear slot `hint` if it holds
   * `s`; failing that, clear the lowest slot holding `s`; failing that,
   * nothing.
   */
  function Deregistered(slots: seq<Buffer?>, s: Buffer, hint: nat): (r: seq<Buffer?>)
    ensures |r| == |slots|
    ensures forall q :: 0 <= q < |slots| ==> r[q] == slots[q] || (slots[q] == s && r[q] == null)
    ensures hint < |slots| && slots[hint] == s ==> r == slots[hint := null]
  {
    if hint < |slots| && slots[hint] == s then slots[hint := null]
    else
      var q := SlotOf(slots, s);
      if q < |slots| then slots[q := null] else slots
  }

  /**
   * Deregistration clears at most one slot, a slot that held `s`, and keeps
   * every other slot and the invariant; a buffer registered once is then
   * gone from the table, and one not registered leaves it unchanged.
   */
  lemma {:induction false} DeregisteredClearsOne(slots: seq<Buffer?>, num: nat, s: Buffer, hint: nat)
    requires HighWater(slots, num)
    ensures HighWater(Deregistered(slots, s, hint), num)
    ensures forall q :: 0 <= q < |slots| && slots[q] != s ==> Deregistered(slots, s, hint)[q] == slots[q]
    ensures (forall q :: 0 <= q < |slots| ==> slots[q] != s) ==> Deregistered(slots, s, hint) == slots
    ensures (forall p, q :: 0 <= p < q < |slots| && slots[p] == s ==> slots[q] != s) ==>
              forall q :: 0 <= q < |slots| ==> Deregistered(slots, s, hint)[q] != s
  {
    var r := Deregistered(slots, s, hint);
    if hint < |slots| && slots[hint] == s {
      assert r == slots[hint := null];
    } else {
      var i := SlotOf(slots, s);
      if i < |slots| {
        assert r == slots[i := null];
      } else {
        assert r == slots;
      }
    }
  }

  /**
   * `remove_alloc` undoes `add_alloc`: deregistering `s` by the index
   * `add_alloc` gave it leaves the table as the scan found it.
   */
  lemma {:induction false} RemoveUndoesAdd(slots: seq<Buffer?>, num: nat, slots': seq<Buffer?>, num': nat, s: Buffer, ind: nat)
    requires Added(slots, num, slots', num', s, ind)
    ensures Deregistered(slots', s, ind) == Grown(slots, num)
  {
    var g := Grown(slots, num);
    assert slots'[ind] == s;
    assert g[ind] == null;
    assert slots'[ind := null] == g;
  }

  class Registry {
    var table: array?<Buffer?>
    var numAllocs: nat
    var maxAllocs: nat

    /**
     * `table` is null only after teardown; the counters are kept then, as in
     * the source.
     */
    ghost predicate Valid()
      reads this, table
    {
      numAllocs < maxAllocs && maxAllocs < UINT32_LIMIT &&
      (table != null ==> table.Length == maxAllocs && HighWater(table[..], numAllocs))
    }

    /** `cstring_init` (cstring.h:570-585): an empty table of INIT_ALLOCS slots. */
    constructor Init()
      ensures Valid() && table != null && fresh(table)
      ensures table[..] == Nulls(INIT_ALLOCS) && numAllocs == 0 && maxAllocs == INIT_ALLOCS
    {
      maxAllocs := INIT_ALLOCS;
      numAllocs := 0;
      table := new Buffer?[INIT_ALLOCS](_ => null);
    }

    /**
     * The first-fit branch of `add_alloc` (cstring.h:74-92): take the lowest
     * empty slot for `s`, record it in `s.ind` and raise the high-water index.
     */
    method TakeFirstFree(s: Buffer)
      requires Valid() && table != null && numAllocs + 1 < maxAllocs
      modifies this`numAllocs, table, s`ind
      ensures Valid() && table == old(table)
      ensures Added(old(table[..]), old(numAllocs), table[..], numAllocs, s, s.ind)
    {
      ghost var slots := table[..];
      ScanSucceeds(slots, numAllocs);
      for i := 0 to maxAllocs
        invariant table[..] == slots
        invariant i <= numAllocs + 1
        invariant forall q :: 0 <= q < i ==> table[q] != null
      {
        if table[i] == null {
          if i > numAllocs {
            numAllocs := i;
          }
          s.ind := i;
          table[i] := s;
          break;
        }
      }
    }

    /**
     * The growth branch of `add_alloc` (cstring.h:94-112): copy the table
     * into one EXT times larger whose new slots are empty.
     */
    method Grow()
      requires Valid() && table != null && numAllocs + 1 >= maxAllocs
      requires EXT * maxAllocs < UINT32_LIMIT
      modifies this`table, this`maxAllocs
      ensures Valid() && table != null && fresh(table)
      ensures table[..] == Grown(old(table[..]), numAllocs)
      ensures maxAllocs == EXT * old(maxAllocs) && numAllocs + 1 < maxAllocs
    {
      var t := table;
      var newTable := new Buffer?[EXT * maxAllocs](_ => null);
      for i := 0 to maxAllocs
        modifies newTable
        invariant forall q :: 0 <= q < i ==> newTable[q] == t[q]
        invariant forall q :: i <= q < newTable.Length ==> newTable[q] == null
      {
        newTable[i] := t[i];
      }
      assert newTable[..] == t[..] + Nulls(maxAllocs);
      maxAllocs := EXT * maxAllocs;
      table := newTable;
    }

    /**
     * `add_alloc(s)` (cstring.h:69-117). While `numAllocs + 1 < maxAllocs`
     * the first empty slot is taken; otherwise the table grows and the call
     * is retried once.
     */
    method AddAlloc(s: Buffer)
      requires Valid() && table != null
      requires numAllocs + 1 >= maxAllocs ==> EXT * maxAllocs < UINT32_LIMIT
      modifies this, table, s`ind
      ensures Valid() && table != null && maxAllocs == table.Length
      ensures Added(old(table[..]), old(numAllocs), table[..], numAllocs, s, s.ind)
      ensures old(numAllocs) + 1 < old(maxAllocs) ==> table == old(table)
      ensures old(numAllocs) + 1 >= old(maxAllocs) ==> fresh(table)
      decreases if numAllocs + 1 < maxAllocs then 0 else 1
    {
      if numAllocs + 1 < maxAllocs {
        TakeFirstFree(s);
      } else {
        Grow();
        AddAlloc(s);
      }
    }

    /**
     * `remove_alloc(s)` (cstring.h:123-141): clear the slot `s.ind` names if
     * it holds `s`, else the first slot holding `s`, else nothing. The
     * counters are not touched.
     */
    method RemoveAlloc(s: Buffer)
      requires Valid() && table != null
      modifies table
      ensures Valid()
      ensures table[..] == Deregistered(old(table[..]), s, s.ind)
    {
      if s.ind < maxAllocs && table[s.ind] == s {
        table[s.ind] := null;
        return;
      }
      ghost var slots := table[..];
      for i := 0 to maxAllocs
        invariant table[..] == slots
        invariant forall q :: 0 <= q < i ==> table[q] != s
      {
        if table[i] == s {
          table[i] := null;
          break;
        }
      }
      DeregisteredClearsOne(slots, numAllocs, s, s.ind);
    }

    /**
     * `delete_all()` (cstring.h:287-313): empty every slot, then drop the
     * table. The counters are left as they were, so the registry cannot be
     * used again.
     */
    method DeleteAll()
      requires Valid()
      modifies this`table, table
      ensures Valid() && table == null
      ensures numAllocs == old(numAllocs) && maxAllocs == old(maxAllocs)
      ensures old(table) != null ==> old(table)[..] == Nulls(maxAllocs)
    {
      if table != null {
        var t := table;
        for i := 0 to maxAllocs
          invariant forall q :: 0 <= q < i ==> t[q] == null
        {
          if t[i] != null {
            t[i] := null;
          }
        }
        table := null;
      }
    }
  }
}
