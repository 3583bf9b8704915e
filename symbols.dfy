/**
 * The two specialisations the library ships: `Symbol` (text, `Interned<str, String>`)
 * and `ByteSymbol` (raw bytes, `Interned<[u8], Vec<u8>>`), with their pools and
 * their `From` conversions. The process-wide pool behind each conversion is passed
 * in explicitly; taking its write lock is the exclusive access a `modifies` clause
 * already grants.
 */
module Symbols {
  import opened ContentOrder
  import opened Handles
  import opened Pools

  type Symbol = Interned<char>
  type SymbolPool = InternPool<char>
  type ByteSymbol = Interned<bv8>
  type ByteSymbolPool = InternPool<bv8>

  /** `str` orders by UTF-8 bytes, which is the order of code points. */
  function CharRank(c: char): int {
    c as int
  }

  /** `Vec<u8>` orders by byte value. */
  function ByteRank(b: bv8): int {
    b as int
  }

  /** `Symbol::from(&str)` and `Symbol::from(String)`: intern the text in the text pool. */
  method SymbolFrom(pool: SymbolPool, s: string) returns (r: Symbol)
    requires pool.Valid()
    modifies pool
    ensures pool.Valid()
    ensures r.Deref() == s && pool.Get(s) == Some(r)
    ensures pool.data == old(pool.data)[s := r]
    ensures old(pool.Get(s)).Some? ==> r == old(pool.Get(s)).value && pool.data == old(pool.data)
    ensures old(pool.Get(s)).None? ==> fresh(r) && pool.data == old(pool.data)[s := r]
  {
    r := pool.Intern(s);
  }

  /** `ByteSymbol::from(&[u8])` and `ByteSymbol::from(Vec<u8>)`: intern the bytes in the byte pool. */
  method ByteSymbolFrom(pool: ByteSymbolPool, s: seq<bv8>) returns (r: ByteSymbol)
    requires pool.Valid()
    modifies pool
    ensures pool.Valid()
    ensures r.Deref() == s && pool.Get(s) == Some(r)
    ensures pool.data == old(pool.data)[s := r]
    ensures old(pool.Get(s)).Some? ==> r == old(pool.Get(s)).value && pool.data == old(pool.data)
    ensures old(pool.Get(s)).None? ==> fresh(r) && pool.data == old(pool.data)[s := r]
  {
    r := pool.Intern(s);
  }

  /** The derived `Ord` on symbols: lexicographic by code point; `Equal` exactly for equal text. */
  function SymbolCmp(a: Symbol, b: Symbol): (o: Ordering)
    ensures o == Equal <==> a.Deref() == b.Deref()
    ensures o == Less <==> LexLess(a.Deref(), b.Deref(), CharRank)
  {
    assert Injective(CharRank);
    a.Cmp(b, CharRank)
  }

  /** The derived `Ord` on byte symbols: lexicographic by byte value; `Equal` exactly for equal bytes. */
  function ByteSymbolCmp(a: ByteSymbol, b: ByteSymbol): (o: Ordering)
    ensures o == Equal <==> a.Deref() == b.Deref()
    ensures o == Less <==> LexLess(a.Deref(), b.Deref(), ByteRank)
  {
    assert Injective(ByteRank);
    a.Cmp(b, ByteRank)
  }

  /** Interning "foo" twice on a fresh text pool: one allocation, two `eq` handles. */
  method RepeatedSymbol() returns (a: Symbol, b: Symbol, size: nat)
    ensures a.Eq(b) && a.Deref() == "foo" && size == 1
  {
    var pool := new InternPool<char>();
    a := SymbolFrom(pool, "foo");
    b := SymbolFrom(pool, "foo");
    size := pool.Size();
  }

  /** Interning "foo" and "bar" on a fresh text pool: two allocations, handles not `eq`. */
  method DistinctSymbols() returns (a: Symbol, b: Symbol, size: nat)
    ensures !a.Eq(b) && a.Deref() == "foo" && b.Deref() == "bar" && size == 2
  {
    var pool := new InternPool<char>();
    a := SymbolFrom(pool, "foo");
    b := SymbolFrom(pool, "bar");
    size := pool.Size();
  }

  /**
   * Text and bytes go to separate pools: interning [1, 2, 3] in a fresh byte pool
   * after "foo" in a fresh text pool leaves the text pool holding only "foo".
   */
  method SeparatePools() returns (a: Symbol, b: ByteSymbol, texts: map<string, Symbol>, bytes: map<seq<bv8>, ByteSymbol>)
    ensures a.Deref() == "foo" && b.Deref() == [1, 2, 3]
    ensures texts == map["foo" := a]
    ensures bytes == map[[1, 2, 3] := b]
  {
    var textPool := new InternPool<char>();
    var bytePool := new InternPool<bv8>();
    a := SymbolFrom(textPool, "foo");
    ghost var before := textPool.data;
    b := ByteSymbolFrom(bytePool, [1, 2, 3]);
    assert textPool.data == before;
    texts := textPool.data;
    bytes := bytePool.data;
  }
}
