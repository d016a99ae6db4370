/** The gallery store of `services/storageService.ts`: one `localStorage` key holding the
    JSON-encoded list of published artworks, newest first. */
module Storage {
  import opened Types
  import opened Constants

  /** What reading the store key yields once `JSON.parse` has run on it: nothing usable (`null`
      or the empty string, both falsy), a stored collection, or a read or parse that throws. */
  datatype Slot = Absent | Holds(list: seq<Artwork>) | Unreadable

  /** The collection `getArtworks` returns for a slot. */
  function Loaded(slot: Slot, seed: seq<Artwork>): seq<Artwork>
  {
    match slot
    case Holds(list) => list
    case _ => seed
  }

  /** The slot after `getArtworks`: an absent key is seeded when the write goes through. */
  function SeededSlot(slot: Slot, seed: seq<Artwork>, writeOk: bool): Slot
  {
    if slot.Absent? && writeOk then Holds(seed) else slot
  }

  /** Reading twice returns the same collection whatever the writes did, and a read after a
      successful seeding writes nothing more. */
  lemma ReadIsIdempotent(slot: Slot, seed: seq<Artwork>, writeOk: bool, writeOk': bool)
    ensures Loaded(SeededSlot(slot, seed, writeOk), seed) == Loaded(slot, seed)
    ensures slot.Absent? ==> Loaded(slot, seed) == seed
    ensures slot.Unreadable? ==> Loaded(slot, seed) == seed && SeededSlot(slot, seed, writeOk) == slot
    ensures SeededSlot(SeededSlot(slot, seed, true), seed, writeOk') == SeededSlot(slot, seed, true)
  {
  }

  /** `artworks.find(a => a.id === id)`. */
  function FindById(list: seq<Artwork>, id: string): (r: Option<Artwork>)
    ensures r.Some? <==> exists k :: 0 <= k < |list| && list[k].id == id
    ensures r.Some? ==> r.value.id == id && r.value in list
  {
    if |list| == 0 then None
    else if list[0].id == id then Some(list[0])
    else FindById(list[1..], id)
  }

  /** `find` returns the record at the first matching position, the one `findIndex` reports. */
  lemma {:induction false} FindByIdIsFirstMatch(list: seq<Artwork>, id: string)
    ensures var i := IndexOfId(list, id);
      FindById(list, id) == if i >= 0 then Some(list[i]) else None
  {
    if |list| > 0 && list[0].id != id {
      FindByIdIsFirstMatch(list[1..], id);
    }
  }

  /** After a prepend, looking up the new record's identifier finds the new record, and every
      other identifier finds what it found before. */
  lemma FindAfterPrepend(art: Artwork, previous: seq<Artwork>, id: string)
    ensures FindById([art] + previous, art.id) == Some(art)
    ensures id != art.id ==> FindById([art] + previous, id) == FindById(previous, id)
  {
    assert ([art] + previous)[1..] == previous;
  }

  /** The browser store, reduced to the one key the gallery uses. */
  class Store {
    var slot: Slot
    /** `INITIAL_ARTWORKS`, fixed when the module loads. */
    const seed: seq<Artwork>

    constructor (slot0: Slot, draw: (int, int) -> Unit, loadTime: int)
      ensures slot == slot0 && seed == InitialArtworks(draw, loadTime)
    {
      slot := slot0;
      seed := InitialArtworks(draw, loadTime);
    }

    /** `getArtworks`: an absent key is seeded with the initial collection (kept only when the write
        succeeds) and that collection is returned; a stored collection is returned as is; a read or
        parse that throws falls back to the initial collection without writing. */
    method GetArtworks(writeOk: bool) returns (list: seq<Artwork>)
      modifies this
      ensures list == Loaded(old(slot), seed)
      ensures slot == SeededSlot(old(slot), seed, writeOk)
    {
      match slot
      case Absent =>
        if writeOk {
          slot := Holds(seed);
        }
        list := seed;
      case Holds(stored) =>
        list := stored;
      case Unreadable =>
        list := seed;
    }

    /** `saveArtwork`: read the collection, build the record from the given identifier, grid and
        time, and store it in front of the collection; a failed write leaves the store as the read
        left it, and the record is returned either way. */
    method SaveArtwork(grid: Grid, id: string, now: int, seedWriteOk: bool, writeOk: bool)
      returns (art: Artwork)
      modifies this
      ensures art == Artwork(id, grid, now)
      ensures writeOk ==> slot == Holds([art] + Loaded(old(slot), seed))
      ensures !writeOk ==> slot == SeededSlot(old(slot), seed, seedWriteOk)
    {
      var artworks := GetArtworks(seedWriteOk);
      art := Artwork(id, grid, now);
      if writeOk {
        slot := Holds([art] + artworks);
      }
    }

    /** `getArtworkById`: the first record of the collection with that identifier, if any. */
    method GetArtworkById(id: string, writeOk: bool) returns (found: Option<Artwork>)
      modifies this
      ensures found == FindById(Loaded(old(slot), seed), id)
      ensures slot == SeededSlot(old(slot), seed, writeOk)
    {
      var artworks := GetArtworks(writeOk);
      found := FindById(artworks, id);
    }
  }

  /** Saving and then reading: the collection grows by exactly one, the new record is first, the
      earlier records follow in their order, and looking the new record up finds it. */
  method SaveThenRead(store: Store, grid: Grid, id: string, now: int, seedWriteOk: bool, readWriteOk: bool)
    returns (art: Artwork, list: seq<Artwork>)
    modifies store
    ensures art == Artwork(id, grid, now)
    ensures |list| == |Loaded(old(store.slot), store.seed)| + 1
    ensures list[0] == art && list[1..] == Loaded(old(store.slot), store.seed)
    ensures FindById(list, id) == Some(art)
  {
    art := store.SaveArtwork(grid, id, now, seedWriteOk, true);
    list := store.GetArtworks(readWriteOk);
    FindAfterPrepend(art, list[1..], id);
    assert [art] + list[1..] == list;
  }
}
