// Where the ROM builder puts data: blocks grow downward from the updater's base, equal
// contents share one block.  place_data in software/userland/manifest_to_rom.py

module RomStore {
  import opened Words

  /** start_segment, data_at_position and data_position_cache. */
  datatype Store = Store(start: int, blocks: map<int, seq<u8>>, cache: map<seq<u8>, int>)

  /** The 16-byte segments that `n` bytes take. */
  function Segments(n: nat): nat {
    (n + 15) / 16
  }

  function Grown(st: Store, data: seq<u8>): Store {
    var s := st.start - Segments(|data|);
    Store(s, st.blocks[s := data], st.cache[data := s])
  }

  function Placed(st: Store, data: seq<u8>): Store {
    if data in st.cache then st else Grown(st, data)
  }

  function Position(st: Store, data: seq<u8>): int {
    if data in st.cache then st.cache[data] else st.start - Segments(|data|)
  }

  /** Blocks lie between `start` and `top` and no two overlap. */
  ghost predicate Arranged(st: Store, top: int) {
    st.start <= top && Bounded(st, top) && Disjoint(st)
  }

  /** In addition, the cache is right about every block. */
  ghost predicate Tidy(st: Store, top: int) {
    Arranged(st, top) && Cached(st)
  }

  ghost predicate Bounded(st: Store, top: int) {
    forall k :: k in st.blocks ==> st.start <= k && k + Segments(|st.blocks[k]|) <= top
  }

  ghost predicate Disjoint(st: Store) {
    forall k, l :: k in st.blocks && l in st.blocks && k < l ==> k + Segments(|st.blocks[k]|) <= l
  }

  ghost predicate Cached(st: Store) {
    && (forall d :: d in st.cache ==> st.cache[d] in st.blocks && st.blocks[st.cache[d]] == d)
    && (forall k :: k in st.blocks ==> st.blocks[k] in st.cache)
  }

  /** Every block of `st` is still there in `st'`. */
  ghost predicate Keeps(st: Store, st': Store) {
    forall k :: k in st.blocks ==> k in st'.blocks && st'.blocks[k] == st.blocks[k]
  }

  function Empty(top: int): Store {
    Store(top, map[], map[])
  }

  /** Whatever is placed, even an empty file, blocks stay inside and apart. */
  lemma PlaceKeepsArranged(st: Store, top: int, data: seq<u8>)
    requires Arranged(st, top)
    ensures Arranged(Placed(st, data), top)
  {
    assert data == [] ==> Segments(|data|) == 0;
    hide Segments;
  }

  lemma GrowCached(st: Store, top: int, data: seq<u8>)
    requires Bounded(st, top) && Cached(st) && data != [] && data !in st.cache
    ensures Cached(Grown(st, data)) && Keeps(st, Grown(st, data))
  {
    assert Segments(|data|) > 0;
    hide Segments;
    assert st.start - Segments(|data|) !in st.blocks;
  }

  /** Placing data keeps the store tidy, keeps every block, and the returned segment reads back
      the data. */
  lemma PlaceKeepsTidy(st: Store, top: int, data: seq<u8>)
    requires Tidy(st, top) && data != []
    ensures Tidy(Placed(st, data), top) && Keeps(st, Placed(st, data))
    ensures var st', p := Placed(st, data), Position(st, data);
            st'.start <= p && p in st'.blocks && st'.blocks[p] == data
  {
    if data !in st.cache {
      PlaceKeepsArranged(st, top, data);
      GrowCached(st, top, data);
    }
  }

  /** The cache never forgets or moves an entry. */
  ghost predicate Remembers(st: Store, st': Store) {
    forall d :: d in st.cache ==> d in st'.cache && st'.cache[d] == st.cache[d]
  }

  /** Equal contents share one block, however much is placed in between. */
  lemma PlaceAgain(st: Store, data: seq<u8>, later: Store)
    requires Remembers(Placed(st, data), later)
    ensures Placed(later, data) == later && Position(later, data) == Position(st, data)
  {
    assert data in Placed(st, data).cache;
  }

  lemma PlaceRemembers(st: Store, data: seq<u8>)
    ensures Remembers(st, Placed(st, data))
  {
  }

  /** Placing an empty file takes no segments, so it lands on the block placed last and replaces
      it in the table: blocks survive exactly when that does not happen. */
  lemma PlaceKeepsBlocksIff(st: Store, data: seq<u8>)
    requires forall k :: k in st.blocks ==> st.start <= k
    ensures Keeps(st, Placed(st, data)) <==>
              (data != [] || data in st.cache || st.start !in st.blocks || st.blocks[st.start] == [])
  {
    if data != [] && data !in st.cache {
      assert Grown(st, data).start < st.start;
    }
    if data == [] && data !in st.cache && st.start in st.blocks {
      assert Placed(st, data).blocks[st.start] == [];
    }
  }

  lemma EmptyFileLosesABlock(top: int)
    ensures var st := Placed(Empty(top), [0x55]);
            var st' := Placed(st, []);
            && Position(st, []) == Position(Empty(top), [0x55])
            && !Keeps(st, st') && st'.blocks[Position(st, [])] == []
  {
    var st := Placed(Empty(top), [0x55]);
    assert st.start in st.blocks && st.blocks[st.start] == [0x55];
    assert [] !in st.cache;
  }
}
