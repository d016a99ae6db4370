/** Records shared by the editor, the gallery store and the app shell. */
module Types {

  datatype Option<+T> = None | Some(value: T)

  /** A density grid as a value: a list of rows, each a list of cell densities. */
  type Grid = seq<seq<int>>

  /** A published piece: identifier, a snapshot of the grid and its creation time (epoch millis). */
  datatype Artwork = Artwork(id: string, grid: Grid, createdAt: int)

  /** The three mutually exclusive screens of the application. */
  datatype View = Gallery | Editor | Viewer

  /** `Math.min`. */
  function Min(a: int, b: int): int
  {
    if a < b then a else b
  }

  function Abs(a: int): nat
  {
    if a < 0 then -a else a
  }

  /** Identifiers are pairwise distinct. */
  predicate UniqueIds(list: seq<Artwork>)
  {
    forall i, j :: 0 <= i < j < |list| ==> list[i].id != list[j].id
  }

  /** `findIndex(a => a.id === id)`: the first position holding `id`, or -1 when none does. */
  function IndexOfId(list: seq<Artwork>, id: string): (r: int)
    ensures -1 <= r < |list|
    ensures r >= 0 ==> list[r].id == id
    ensures r >= 0 ==> forall k :: 0 <= k < r ==> list[k].id != id
    ensures r == -1 <==> forall k :: 0 <= k < |list| ==> list[k].id != id
  {
    if |list| == 0 then -1
    else if list[0].id == id then 0
    else
      var rest := IndexOfId(list[1..], id);
      if rest == -1 then -1 else rest + 1
  }

  /** With distinct identifiers, looking up the identifier found at position k gives back k. */
  lemma IndexOfOwnId(list: seq<Artwork>, k: int)
    requires UniqueIds(list)
    requires 0 <= k < |list|
    ensures IndexOfId(list, list[k].id) == k
  {
  }
}
