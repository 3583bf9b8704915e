# Interning pool, modelled in Dafny

This project models the interning library of `src/lib.rs`. It returns one canonical,
reference-counted handle per distinct content value. Repeated occurrences of equal
content share one allocation. Handles are compared by address, not by content.

- `order.dfy`, module `ContentOrder`: the ordering that `Interned` derives. It compares
  the owned values lexicographically, and a proper prefix comes first. The lemmas prove
  it is a total order and match it against a first-difference reference definition.
- `handle.dfy`, module `Handles`: the handle `Interned<B, O>`, a class with an immutable
  `content: seq<T>`. A Dafny object stands for the `Arc` allocation, so reference
  equality is the address comparison of `eq`. `clone` returns the same object, and
  `borrow`/`deref` return the content.
- `pool.dfy`, module `Pools`: `InternPool<B, O>`, a class whose `data` field maps each
  content to the one handle holding it. It has `get` and the lookup-or-insert `intern`.
  `Valid()` says every handle is filed under its own content. The lemmas derive
  the uniqueness invariant from this: one allocation per content per pool, so within one pool
  identity equality and content comparison agree.
- `symbols.dfy`, module `Symbols`: the `Symbol` (text, `seq<char>`) and `ByteSymbol`
  (bytes, `seq<bv8>`) specialisations. Their `From` conversions intern into a pool that
  is passed in explicitly.

The source's `HashSet` of handles is found through the `Borrow<B>` view. Keyed by
content in this way, it is a map from content to handle, and that map is what the model
stores. The set of handles is `data.Values` (`Stored()`), and its size is `|data|`, which the lemma
`HandleCount` proves equal.

## Model

| member | source | states |
|---|---|---|
| `ContentOrder.LexCompare` | src/lib.rs:28 | The derived comparison of two contents answers `Equal` exactly when the contents are equal. |
| `ContentOrder.LexCompareLess` | src/lib.rs:28 | The comparison answers `Less` exactly when, at the first position where the contents differ, the left one has ended or holds the lower-ranked element. |
| `ContentOrder.LexCompareReverse` | src/lib.rs:28 | Swapping the operands reverses the outcome (antisymmetry). |
| `ContentOrder.LexCompareTransitive` | src/lib.rs:28 | `Less` is transitive, so the derived `Ord` is a total order. |
| `Handles.Interned.constructor` | src/lib.rs:34-36 | `Interned::new(Arc::new(v))` gives a new allocation holding `v`. |
| `Handles.Interned.Borrow` | src/lib.rs:52-56 | `borrow` yields the stored content unchanged. |
| `Handles.Interned.Deref` | src/lib.rs:81-86 | `deref` yields the same view as `borrow`. |
| `Handles.Interned.Eq` | src/lib.rs:44-48 | `eq` holds exactly for the same allocation, and then the contents are equal. |
| `Handles.Interned.Clone` | src/lib.rs:38-42 | A clone is `eq` to the original in both directions and has the same content. |
| `Handles.Interned.Cmp` | src/lib.rs:28-32 | `cmp` on handles is `Equal` exactly when their contents are equal. It is `Less` exactly when the content sorts first. `eq` handles compare `Equal`. |
| `Handles.SeparateAllocations` | src/lib.rs:34-48 | Two separate allocations of the same content are not `eq` in either direction, so equality never looks at content. |
| `Pools.HandleCount` | src/lib.rs:106-108 | In a valid pool, the number of stored handles equals the number of distinct contents. |
| `Pools.StoredHandlesUnique` | src/lib.rs:121-131 | Pool uniqueness: two stored handles are `eq` exactly when their contents are equal. |
| `Pools.EqAgreesWithCmp` | src/lib.rs:28-48 | Within one pool, identity `eq` and content `cmp == Equal` coincide for stored handles. |
| `Pools.InternPool.constructor` | src/lib.rs:113-115 | `new` gives a valid, empty pool. |
| `Pools.InternPool.Size` | src/lib.rs:106-108 | A count of the stored handles that exists only in the model (the source has no size accessor), used to state the growth properties; it equals the number of handles in the set. |
| `Pools.InternPool.Get` | src/lib.rs:117-119 | `get(v)` returns a handle exactly when some stored handle has content `v`. The handle it returns is stored and has content `v`. It reads the pool and changes nothing. |
| `Pools.InternPool.Intern` | src/lib.rs:121-131 | If `v` is present, `intern(v)` returns the stored handle and leaves the set unchanged. If `v` is absent, it stores one fresh handle and the size grows by one. In both cases the result has content `v`, `get(v)` then returns it, the invariant is kept, and every earlier entry is kept. |
| `Pools.InternTwice` | src/lib.rs:117-131 | Idempotence: interning `v` twice gives `eq` handles, and `get(v)` returns them. The size grows by at most one, and only if `v` was absent before. |
| `Pools.InternDistinct` | src/lib.rs:121-131 | No false aliasing: interning different contents on one pool gives handles that are not `eq`. |
| `Symbols.SymbolFrom` | src/lib.rs:162-172 | `Symbol::from` for `&str` and `String` interns the text in the text pool and keeps the `intern` contract. |
| `Symbols.ByteSymbolFrom` | src/lib.rs:202-212 | `ByteSymbol::from` for `&[u8]` and `Vec<u8>` interns the bytes in the byte pool and keeps the `intern` contract. |
| `Symbols.SymbolCmp` | src/lib.rs:136 | Symbols order lexicographically by code point. They compare `Equal` exactly when their texts are equal. |
| `Symbols.ByteSymbolCmp` | src/lib.rs:176 | Byte symbols order lexicographically by byte value. They compare `Equal` exactly when their bytes are equal. |
| `Symbols.RepeatedSymbol` | src/lib.rs:162-166 | On a fresh text pool, interning "foo" twice gives `eq` symbols and a pool of size 1. |
| `Symbols.SeparatePools` | src/lib.rs:162-212 | Interning text in the text pool and bytes in the byte pool: each pool holds only its own entry, and interning bytes leaves the text pool as it was. |
| `Symbols.DistinctSymbols` | src/lib.rs:162-166 | On a fresh text pool, interning "foo" and "bar" gives symbols that are not `eq` and a pool of size 2. |

## Left out

- The lazily created process-wide pools `symbol_pool_instance` and `byte_symbol_pool_instance` (src/lib.rs:139-152, 179-192) are left out. They initialise a static through an unsynchronised `ptr::write`, which is global state and concurrency. Pools are explicit objects here.
- The `RwLock` guards and `read_symbol_pool`, `write_symbol_pool`, `read_byte_symbol_pool` and `write_byte_symbol_pool` (src/lib.rs:154-160, 194-200) are left out as concurrency plumbing. The sequential methods assume exclusive access, which their `modifies` clauses express.
- `Encodable` and `Decodable` (src/lib.rs:88-102) are left out. They delegate to the external `rustc_serialize` codec, and decoding ends in `From`, which is `SymbolFrom`/`ByteSymbolFrom` here.
- `Debug` and `Display` (src/lib.rs:65-79) are left out. They only format output by delegating to the owned value.
- The derived `Hash` (src/lib.rs:28), the FNV hasher and the internals of `HashSet` (src/lib.rs:107) are left out. The set is modelled abstractly as a map keyed by content.
- `Arc` reference counting and memory lifetime are left out. `Clone` returns the same object and does not model the count. The pool never evicts, so handles live as long as the pool.
- `Interned::new` is private to the crate in the source. Dafny has no module privacy without export sets, so the model's constructor is callable anywhere. Only `Intern` and `SeparateAllocations` call it.
- The two `From` impls per domain, borrowed (`&str`, `&[u8]`) and owned (`String`, `Vec<u8>`), look the same once content is a sequence. Each domain therefore has one conversion method.
- `Pools.InternPool.Intern`: takes the argument's borrowed view (the lookup key, src/lib.rs:124) and its converted owned value (what is stored, src/lib.rs:128) to be the same content. That holds for the `&str`, `String`, `&[u8]` and `Vec<u8>` conversions the library uses. A caller type whose `Borrow` and `Into` disagreed could make the source store a second handle for content already present, which the model does not capture.
- `SymbolCmp`: it compares by code point. Rust compares `str` by UTF-8 bytes, and that order is the same for valid text. The model has no encoding.
