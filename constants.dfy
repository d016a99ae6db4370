/** Fixed dimensions, the glyph table and the seeded default artwork. */
module Constants {
  import opened Types

  const GridWidth: int := 80
  const GridHeight: int := 40

  /** The glyph table exactly as the source file stores it: its last entry is the three-character
      mis-decoding of the full block, not the block itself. */
  const CharMapAsWritten: seq<string> :=
    [" ", ".", ":", "-", "=", "+", "*", "#", "%", "@", "\U{00E2}\U{2013}\U{02C6}"]

  /** The glyph table from lightest to darkest, with the darkest entry the full block U+2588. */
  const CharMap: seq<string> :=
    [" ", ".", ":", "-", "=", "+", "*", "#", "%", "@", "\U{2588}"]

  const MaxDensity: int := |CharMap| - 1

  /** The table is eleven entries long, so densities run from 0 to 10, and entry 0 is the blank. */
  lemma TableFacts()
    ensures MaxDensity == |CharMapAsWritten| - 1 == 10
    ensures CharMap[0] == CharMapAsWritten[0] == " "
  {
  }

  /** Every entry of the corrected table is one character, and only entry 0 is the blank. */
  lemma CharMapGlyphsAreSingle()
    ensures forall i :: 0 <= i < |CharMap| ==> |CharMap[i]| == 1
    ensures forall i :: 0 <= i < |CharMap| ==> (CharMap[i] == " " <==> i == 0)
  {
  }

  /** The darkest entry as written is three characters long. */
  lemma AsWrittenDarkestIsThreeChars()
    ensures |CharMapAsWritten[MaxDensity]| == 3
    ensures CharMapAsWritten[MaxDensity] != CharMap[MaxDensity]
  {
  }

  predicate InBounds(x: int, y: int)
  {
    0 <= x < GridWidth && 0 <= y < GridHeight
  }

  /** GridHeight rows of GridWidth cells each. */
  predicate Shaped(g: Grid)
  {
    |g| == GridHeight && forall y :: 0 <= y < |g| ==> |g[y]| == GridWidth
  }

  /** Every cell lies in [0, MaxDensity]. */
  predicate Bounded(g: Grid)
  {
    forall y, x :: 0 <= y < |g| && 0 <= x < |g[y]| ==> 0 <= g[y][x] <= MaxDensity
  }

  /** A value drawn by `Math.random()`: a real in [0, 1). */
  type Unit = r: real | 0.0 <= r < 1.0

  /** Squared distance from the grid centre; both half-dimensions are whole numbers, so comparing it
      with 100 and 225 is the same as comparing the square root with 10 and 15. */
  function CentreDistance2(x: int, y: int): int
  {
    var dx := x - GridWidth / 2;
    var dy := y - GridHeight / 2;
    dx * dx + dy * dy
  }

  /** One cell of the seed artwork, given the random draw for that cell. */
  function SeedCell(x: int, y: int, r: Unit): (v: int)
    ensures CentreDistance2(x, y) < 100 ==> 5 <= v <= 9
    ensures 100 <= CentreDistance2(x, y) < 225 ==> 1 <= v <= 3
    ensures CentreDistance2(x, y) >= 225 ==> v == 0
  {
    var d2 := CentreDistance2(x, y);
    if d2 < 100 then (r * 5.0).Floor + 5
    else if d2 < 225 then (r * 3.0).Floor + 1
    else 0
  }

  /** The seed artwork's grid: a radial gradient around (40, 20), one random draw per cell. */
  function SeedGrid(draw: (int, int) -> Unit): Grid
  {
    seq(GridHeight, (y: int) => seq(GridWidth, (x: int) => SeedCell(x, y, draw(x, y))))
  }

  /** Whatever the draws, the seed grid has the editor's shape, its cells follow the three rings,
      and every cell is a valid density. */
  lemma SeedGridWellFormed(draw: (int, int) -> Unit)
    ensures Shaped(SeedGrid(draw))
    ensures Bounded(SeedGrid(draw))
    ensures forall y, x :: InBounds(x, y) ==> SeedGrid(draw)[y][x] == SeedCell(x, y, draw(x, y))
  {
    var g := SeedGrid(draw);
    forall y, x | 0 <= y < |g| && 0 <= x < |g[y]|
      ensures 0 <= g[y][x] <= MaxDensity
    {
      assert g[y][x] == SeedCell(x, y, draw(x, y));
    }
  }

  /** `INITIAL_ARTWORKS`, evaluated once when the module loads at time `loadTime`. */
  function InitialArtworks(draw: (int, int) -> Unit, loadTime: int): (list: seq<Artwork>)
    ensures |list| == 1 && list[0].id == "seed-1"
    ensures list[0].grid == SeedGrid(draw)
    ensures list[0].createdAt == loadTime - 10000000
  {
    [Artwork("seed-1", SeedGrid(draw), loadTime - 10000000)]
  }
}
