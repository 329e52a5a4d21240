# cstring: a verified model of the growable C string library

`cstring.h` is a header-only C library with two parts. The first is a growable byte
string, `struct string`: a heap buffer `str` of `cap` bytes, of which the first
`len` are the content, plus the index `ind` of the slot where the buffer is
registered. The second is a process-wide allocation table that records every
string created, so `delete_all` can release them all at exit. This project
models both parts in Dafny and proves what each operation does to the content
and to the table.

Modules:

- `CLib` (`clib.dfy`): bytes, `Option`, the C-library functions the code calls
  (strlen and strstr, ISO C11 sections 7.24.6.3 and 7.24.5.7), and the
  `uint32` to `int` conversion. A `char *` argument is modelled as the byte run
  it points to, up to the end of its allocation. The C string it denotes is
  `CStr(run)`, the bytes before the first NUL. Each caller requires a NUL in
  the run (`Terminated`).
- `Buffers` (`buffer.dfy`): the class `Buffer` and its in-place operations:
  `cap`, `len`, `str`, `get`, `set`, `rem`, `find`, `clear`, `insert`,
  `append`, `prepend` and `concat`. The specification functions `Spliced` and
  `Removed` give the content after an insert and after a removal.
- `Allocs` (`registry.dfy`): the class `Registry`. It holds the allocation
  table, the high-water index `numAllocs` and the table size `maxAllocs`. Its
  operations are `cstring_init`, `add_alloc`, `remove_alloc` and `delete_all`.
  Pure functions on slot sequences (`FirstFree`, `Grown`, `Added`,
  `Deregistered`) specify those operations.
- `CString` (`cstring.dfy`): the operations that create or drop strings
  through the table: `cstring`, `copy`, `substr`, `substrn` and `delete`. The
  C globals are one `Registry` object, passed in as `reg`.

Facts about the code that shape the model:

- `insert` keeps only `cap >= len`, not room for a terminator: it fills the
  buffer in place whenever `cap >= len + strlen(c)`, so a buffer can end up
  with `len == cap` and no terminating NUL. `Valid` allows this.
  - `rem` reads `str[len]`, so it requires `len < cap` when it shifts.
  - `substrn` writes `str[j]`, so it requires `j < cap` when it copies.
  - `copy`, `substr` and `find` call strlen or strstr, so they require a NUL
    in the storage.
- `delete_all` drops the table but leaves `max_allocs` and `num_allocs` as they
  were, and nothing rebuilds the table. After it, the registry cannot be used
  again: every registry operation except `DeleteAll` requires `table != null`.
- The table is declared as `cstring_allocs`, but the code refers to it as
  `allocs`. The model treats the two names as one table.

## Model

| member | source | states |
|---|---|---|
| CLib.StrLen | cstring.h:390 | strlen: the result is the length of a NUL-free prefix, followed by a NUL unless it reaches the end of the run |
| CLib.CStr | cstring.h:158-160 | the C string a run denotes: a NUL-free prefix of the run, followed by a NUL unless it is the whole run |
| CLib.CStrCut | cstring.h:358-361 | cutting a run at any NUL does not change the C string it denotes |
| CLib.CStrOfBuffer | cstring.h:321-339 | when a NUL follows the content, the C string of the storage is the C string of the content, and is the whole content when the content holds no NUL |
| CLib.StrStr | cstring.h:493-496 | strstr: the least offset where the needle occurs; -1 exactly when it occurs nowhere; the empty needle is found at 0 |
| CLib.AsInt32 | cstring.h:208-226 | converting a uint32 to int keeps the value below 2^31 and otherwise wraps by 2^32 into the int32 range |
| Buffers.Spliced | cstring.h:380-445 | the content after an insert: the prefix before `k`, then `c`, then the old suffix moved right by the length of `c` |
| Buffers.Removed | cstring.h:515-538 | the content after a removal at `i`: one byte shorter, the prefix kept, the suffix moved left by one |
| Buffers.SplicedAtEnds | cstring.h:451-469 | inserting at 0 prepends and inserting at `len` appends |
| Buffers.RemovedUndoesSplice | cstring.h:380-445 | removing at `k` the byte just inserted at `k` gives back the original content |
| Buffers.ShiftThenWrite | cstring.h:399-412 | shifting the suffix right by the length of `c` and then writing `c` at `k` yields the spliced content and leaves the bytes beyond it as they were |
| Buffers.Buffer.Alloc | cstring.h:163-190 | a new buffer holds exactly the given bytes, has capacity 15 more than its length with a zero tail, and `ind == 0` |
| Buffers.Buffer.Cap | cstring.h:208-214 | `cap(s)`: the capacity converted to int |
| Buffers.Buffer.Len | cstring.h:220-226 | `len(s)`: the length converted to int |
| Buffers.Buffer.Str | cstring.h:232-238 | `str(s)`: the buffer's own storage, whose first `len` bytes are the content and the rest zero |
| Buffers.Buffer.Get | cstring.h:503-509 | `get(s, i)`: the content byte at `i`, or 0 when `i` is at or beyond the length |
| Buffers.Buffer.Find | cstring.h:488-497 | `find(s, c)`: the least offset of `c`'s C string in the buffer's C string, or -1 exactly when it does not occur |
| Buffers.Buffer.Clear | cstring.h:246-255 | `clear(s)`: every storage byte is 0 and the content is empty; storage and capacity are kept |
| Buffers.Buffer.Set | cstring.h:544-562 | `set(s, i, c)`: returns the old byte; inside the content only byte `i` changes; outside it nothing changes and the result is 0 |
| Buffers.Buffer.Rem | cstring.h:515-538 | `rem(s, i)`: returns the removed byte; the content becomes `Removed(content, i)`; out of range nothing changes and the result is 0 |
| Buffers.Buffer.ShiftPass | cstring.h:403-405 | one pass of the inner shift loop moves `[k, len)` right by one more position and changes nothing else |
| Buffers.Buffer.ShiftRight | cstring.h:399-407 | `n` passes move `[k, len)` right by `n` and keep the prefix and the tail |
| Buffers.Buffer.CopyIn | cstring.h:410-412 | the bytes of `c`'s C string are written at `k` and no other byte changes |
| Buffers.Buffer.InsertInPlace | cstring.h:397-415 | the in-place branch: the content becomes `Spliced(content, c, k)` in the same storage |
| Buffers.Buffer.Reallocate | cstring.h:418-437 | new zeroed storage of the requested size holds the same content |
| Buffers.Buffer.Insert | cstring.h:380-445 | `insert(s, c, k)` succeeds exactly when `k <= len`; the content then becomes `Spliced(content, c, k)` and the capacity grows to `len + strlen(c) + 15` only if the bytes do not fit; on failure nothing changes |
| Buffers.Buffer.Append | cstring.h:451-457 | `append(s, c)`: the content becomes content followed by `c`'s C string; the capacity is kept when the bytes fit and becomes `len + strlen(c) + 15` otherwise |
| Buffers.Buffer.Prepend | cstring.h:463-469 | `prepend(s, c)`: the content becomes `c`'s C string followed by the content; the capacity follows the same rule as `append` |
| Buffers.Buffer.Concat | cstring.h:475-480 | `concat(s1, s2)`: `s1`'s content is followed by `s2`'s C string, which is all of `s2`'s content when a NUL follows it and it holds none; `s2` is unchanged; the capacity follows the same rule as `append` |
| Allocs.Added | cstring.h:74-115 | what `add_alloc` does to the table: `s` goes into the lowest empty slot of the grown table, every slot below it occupied, and the high-water index is raised to that slot if it was below |
| Allocs.Deregistered | cstring.h:128-140 | what `remove_alloc` does to the table: the hint slot is cleared when it holds `s`; failing that the lowest slot holding `s`; every slot either keeps its value or held `s` and is now empty |
| Allocs.FirstFree | cstring.h:76-92 | the first-fit scan: the lowest empty slot, with every slot below it occupied |
| Allocs.Grown | cstring.h:93-112 | the table the scan sees: unchanged while `num + 1 < max`, otherwise doubled with the new slots empty |
| Allocs.ScanSucceeds | cstring.h:74-92 | under the high-water invariant the scan stops at or below `num + 1` |
| Allocs.GrowthRetriesOnce | cstring.h:109-115 | after growth the invariant still holds and the retry takes the in-place branch, so `add_alloc` recurses at most once |
| Allocs.AddedKeepsTable | cstring.h:69-117 | `add_alloc` keeps the invariant, puts `s` in a previously empty slot no higher than `num + 1`, and keeps every other slot |
| Allocs.SlotOf | cstring.h:134-140 | the lowest slot holding `s`, every slot below it holding something else |
| Allocs.DeregisteredClearsOne | cstring.h:123-141 | `remove_alloc` clears at most one slot, one that held `s`; it keeps all other slots and the invariant, and leaves the table unchanged when `s` is not in it |
| Allocs.RemoveUndoesAdd | cstring.h:69-141 | removing a buffer by the index `add_alloc` gave it restores the table the scan found |
| Allocs.Registry.Init | cstring.h:570-585 | `cstring_init`: an empty table of 15 slots with `num_allocs == 0` |
| Allocs.Registry.TakeFirstFree | cstring.h:74-92 | the in-place branch of `add_alloc` takes the first empty slot, records it in `s.ind` and raises `num_allocs` to it |
| Allocs.Registry.Grow | cstring.h:94-112 | the growth branch: a fresh table twice the size, holding the old slots and then empty ones |
| Allocs.Registry.AddAlloc | cstring.h:69-117 | `add_alloc(s)`: the new table and counters are `Added(old table, old num, ...)` |
| Allocs.Registry.RemoveAlloc | cstring.h:123-141 | `remove_alloc(s)`: the table becomes `Deregistered(old table, s, s.ind)` |
| Allocs.Registry.DeleteAll | cstring.h:287-313 | `delete_all()`: every slot is emptied, the table is dropped, and the counters are kept |
| CString.CutAt | cstring.h:355-364 | blanking byte `j` makes the C string from `i` exactly the C string of bytes `[i, j)` |
| CString.Create | cstring.h:149-200 | `cstring(istr)`: a fresh, registered buffer holding `istr`'s C string (empty for NULL) with 15 spare bytes, registered as `Added` says; the table is the same one unless it had to grow, and then it is fresh |
| CString.Copy | cstring.h:321-327 | `copy(s)`: a fresh, registered buffer holding `s`'s C string, which is `s`'s content when a NUL follows it and it holds none; the table is kept or fresh as for `cstring` |
| CString.Substr | cstring.h:333-339 | `substr(s, i)`: NULL exactly when `i >= len`, otherwise a fresh, registered buffer with the C string from `i`; on NULL the registry is untouched, otherwise the table is kept or fresh as for `cstring` |
| CString.CopyCut | cstring.h:352-367 | the copy of `substrn`: a registered buffer holding the C string of bytes `[i, j)`, with the storage restored afterwards; the table is kept or fresh as for `cstring` |
| CString.Substrn | cstring.h:345-372 | `substrn(s, i, j)`: NULL exactly when not `i < j <= len`, otherwise a registered buffer with the C string of bytes `[i, j)`; `s` is unchanged; on NULL the registry is untouched, otherwise the table is kept or fresh as for `cstring` |
| CString.Delete | cstring.h:261-281 | `delete(s)`: the table becomes `Deregistered(old table, s, s.ind)` |

## Left out

- The mutex (cstring.h:37, 572): every operation is modelled as running alone.
- `verify` (cstring.h:50-60) prints a message and exits when a check fails. The model turns each check into a `requires` that a pointer argument is present; a `Buffer` or `seq` argument cannot be NULL.
- Allocation failure of `calloc`: the model assumes `calloc` always succeeds, so the branches that handle its failure are not modelled.
- `free`: memory is garbage collected here. `delete` and `delete_all` only change the table, and they do not model the freed buffers becoming unusable.
- The `constructor` attribute and `atexit(delete_all)` (cstring.h:42, 584): the registry is built by `Registry.Init` and torn down by an explicit `DeleteAll`.
- Pointer aliasing: `concat(s, s)`, and `insert` of a string pointing into the buffer itself, are excluded by requiring separate storage. In-place reading and writing of one `char *` is not modelled.
- uint32 wrap-around in `len + strlen(c)` (cstring.h:394, whose wrap would decide the branch at cstring.h:397 wrongly), `len + strlen(c) + 15`, `init_len + 15` and `max_allocs * 2`: excluded by the `requires` of `Insert`, `Create` and `AddAlloc`, not modelled as wrapping.
- The signed `int` counter of the reallocating copy in `insert` (cstring.h:427) overflows for a length of 2^31 or more: `Insert`, `Append`, `Prepend` and `Concat` require a length below 2^31 when they reallocate, rather than modelling that undefined behaviour.
- Buffers.Buffer.Find: the conversion of the offset to `int32` is not modelled; the result is the exact offset even when it is 2^31 or more.
- Buffers.Buffer.Str: the returned pointer into the live storage is modelled as the array itself; later writes through it are ordinary array updates of that buffer.
