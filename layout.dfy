/** Layout of a tightly packed buffer: pieces of equal length laid end to
    end. Offsets are built from `Mul`, a product defined by repeated
    addition, so that reasoning about where a piece lands stays within
    linear arithmetic; `MulIsProduct` connects it to ordinary
    multiplication. */
module Layout {

  /** `n` copies of `c` added together. */
  function Mul(n: nat, c: nat): nat
  {
    if n == 0 then 0 else Mul(n - 1, c) + c
  }

  lemma {:induction false} MulIsProduct(n: nat, c: nat)
    ensures Mul(n, c) == n * c
  {
    if n > 0 {
      MulIsProduct(n - 1, c);
      assert (n - 1) * c + c == n * c;
    }
  }

  lemma {:induction false} MulAdd(a: nat, b: nat, c: nat)
    ensures Mul(a + b, c) == Mul(a, c) + Mul(b, c)
    decreases b
  {
    if b > 0 {
      MulAdd(a, b - 1, c);
    }
  }

  lemma MulMono(a: nat, b: nat, c: nat)
    requires a <= b
    ensures Mul(a, c) <= Mul(b, c)
  {
    MulAdd(a, b - a, c);
  }

  /** `h` rows of `w` items of `c` bytes, as the source computes the size:
      `w * h * c`. */
  lemma GridSize(w: nat, h: nat, c: nat)
    ensures Mul(h, Mul(w, c)) == w * h * c
  {
    MulIsProduct(w, c);
    MulIsProduct(h, w * c);
    assert h * (w * c) == (h * w) * c;
    assert h * w == w * h;
  }

  /** The offset of item `x` of row `r`, rows being `w` items of `c` bytes. */
  lemma SlotOffset(w: nat, c: nat, r: nat, x: nat)
    ensures Mul(r, Mul(w, c)) + Mul(x, c) == (r * w + x) * c
  {
    MulIsProduct(w, c);
    MulIsProduct(x, c);
    MulIsProduct(r, w * c);
    assert r * (w * c) == (r * w) * c;
    assert (r * w) * c + x * c == (r * w + x) * c;
  }

  /** The pieces laid end to end, first piece first. */
  function Concat<T>(pieces: seq<seq<T>>): seq<T>
    decreases |pieces|
  {
    if pieces == [] then [] else Concat(pieces[..|pieces| - 1]) + pieces[|pieces| - 1]
  }

  /** Every piece is `c` long. */
  predicate Uniform<T>(pieces: seq<seq<T>>, c: nat)
  {
    forall i :: 0 <= i < |pieces| ==> |pieces[i]| == c
  }

  lemma ConcatSnoc<T>(pieces: seq<seq<T>>, last: seq<T>)
    ensures Concat(pieces + [last]) == Concat(pieces) + last
  {
    assert (pieces + [last])[..|pieces|] == pieces;
  }

  lemma {:induction false} ConcatLength<T>(pieces: seq<seq<T>>, c: nat)
    requires Uniform(pieces, c)
    ensures |Concat(pieces)| == Mul(|pieces|, c)
    decreases |pieces|
  {
    if pieces != [] {
      ConcatLength(pieces[..|pieces| - 1], c);
    }
  }

  /** Element `k` of piece `x` sits at offset `x * c + k`. */
  lemma {:induction false} ConcatAt<T>(pieces: seq<seq<T>>, c: nat, x: nat, k: nat)
    requires Uniform(pieces, c) && x < |pieces| && k < c
    ensures Mul(x, c) + k < |Concat(pieces)|
    ensures Concat(pieces)[Mul(x, c) + k] == pieces[x][k]
    decreases |pieces|
  {
    var n := |pieces|;
    var front := pieces[..n - 1];
    ConcatLength(pieces, c);
    ConcatLength(front, c);
    var i := Mul(x, c) + k;
    if x < n - 1 {
      ConcatAt(front, c, x, k);
      assert Concat(pieces)[i] == Concat(front)[i];
    } else {
      assert Concat(pieces)[i] == pieces[n - 1][k];
    }
  }

  /** A grid of cells: each row is its cells laid end to end. */
  function Rows<T>(cells: seq<seq<seq<T>>>): (rows: seq<seq<T>>)
    ensures |rows| == |cells|
  {
    seq(|cells|, r requires 0 <= r < |cells| => Concat(cells[r]))
  }

  /** The rows of a grid of cells laid end to end, first row first. */
  function Flatten<T>(cells: seq<seq<seq<T>>>): seq<T>
  {
    Concat(Rows(cells))
  }

  /** Every row holds `w` cells of `c` items each. */
  predicate Grid<T>(cells: seq<seq<seq<T>>>, w: nat, c: nat)
  {
    forall r :: 0 <= r < |cells| ==> |cells[r]| == w && Uniform(cells[r], c)
  }

  lemma RowsUniform<T>(cells: seq<seq<seq<T>>>, w: nat, c: nat)
    requires Grid(cells, w, c)
    ensures Uniform(Rows(cells), Mul(w, c))
  {
    forall r | 0 <= r < |cells|
      ensures |Rows(cells)[r]| == Mul(w, c)
    {
      ConcatLength(cells[r], c);
    }
  }

  lemma FlattenLength<T>(cells: seq<seq<seq<T>>>, w: nat, c: nat)
    requires Grid(cells, w, c)
    ensures |Flatten(cells)| == Mul(|cells|, Mul(w, c))
  {
    RowsUniform(cells, w, c);
    ConcatLength(Rows(cells), Mul(w, c));
  }

  /** Item `k` of cell `x` of row `r` sits at offset `(r * w + x) * c + k`. */
  lemma FlattenAt<T>(cells: seq<seq<seq<T>>>, w: nat, c: nat, r: nat, x: nat, k: nat)
    requires Grid(cells, w, c) && r < |cells| && x < w && k < c
    ensures Mul(r, Mul(w, c)) + Mul(x, c) + k < |Flatten(cells)|
    ensures Flatten(cells)[Mul(r, Mul(w, c)) + Mul(x, c) + k] == cells[r][x][k]
  {
    var rows := Rows(cells);
    ConcatAt(cells[r], c, x, k);
    ConcatLength(cells[r], c);
    RowsUniform(cells, w, c);
    ConcatAt(rows, Mul(w, c), r, Mul(x, c) + k);
    assert rows[r] == Concat(cells[r]);
  }

  /** A row added below the others lands at the end. */
  lemma FlattenSnoc<T>(cells: seq<seq<seq<T>>>, last: seq<seq<T>>)
    ensures Flatten(cells + [last]) == Flatten(cells) + Concat(last)
  {
    assert Rows(cells + [last]) == Rows(cells) + [Concat(last)];
    ConcatSnoc(Rows(cells), Concat(last));
  }

  /** Where the slot of item `x` of row `r` starts, in rows of `w` items of
      `c` elements each. */
  function Start(r: nat, x: nat, w: nat, c: nat): nat
  {
    Mul(r, Mul(w, c)) + Mul(x, c)
  }

  /** The `c`-item slot of cell `x` of row `r` lies inside a grid of `h`
      rows of `w` such cells. */
  lemma SlotInside(h: nat, w: nat, c: nat, r: nat, x: nat)
    requires r < h && x < w
    ensures Start(r, x, w, c) + c <= Mul(h, Mul(w, c))
  {
    MulMono(x + 1, w, c);
    MulMono(r + 1, h, Mul(w, c));
  }

  /** The slot of cell `x` of row `r` holds exactly that cell. */
  lemma FlattenSlot<T>(cells: seq<seq<seq<T>>>, w: nat, c: nat, r: nat, x: nat)
    requires Grid(cells, w, c) && r < |cells| && x < w
    ensures Start(r, x, w, c) + c <= |Flatten(cells)|
    ensures Flatten(cells)[Start(r, x, w, c)..Start(r, x, w, c) + c] == cells[r][x]
  {
    var i := Start(r, x, w, c);
    FlattenLength(cells, w, c);
    SlotInside(|cells|, w, c, r, x);
    forall k | 0 <= k < c
      ensures Flatten(cells)[i + k] == cells[r][x][k]
    {
      FlattenAt(cells, w, c, r, x, k);
    }
    assert Flatten(cells)[i..i + c] == cells[r][x];
  }

  /** Every line of `grid` holds `w` items. */
  predicate Rect<T>(grid: seq<seq<T>>, w: nat)
  {
    forall y :: 0 <= y < |grid| ==> |grid[y]| == w
  }

  /** The encoding gives every item `c` elements. */
  ghost predicate Fixed<T(!new), U>(enc: T -> seq<U>, c: nat)
  {
    forall p :: |enc(p)| == c
  }

  /** Each item of a line encoded on its own, left to right. */
  function Pieces<T(!new), U>(line: seq<T>, enc: T -> seq<U>): (pieces: seq<seq<U>>)
    ensures |pieces| == |line|
    ensures forall x :: 0 <= x < |line| ==> pieces[x] == enc(line[x])
  {
    seq(|line|, x requires 0 <= x < |line| => enc(line[x]))
  }

  /** A line packed: its items' encodings end to end. */
  function PackLine<T(!new), U>(line: seq<T>, enc: T -> seq<U>): seq<U>
  {
    Concat(Pieces(line, enc))
  }

  lemma PackLineLength<T(!new), U>(line: seq<T>, enc: T -> seq<U>, c: nat)
    requires Fixed(enc, c)
    ensures |PackLine(line, enc)| == Mul(|line|, c)
  {
    var pieces := Pieces(line, enc);
    forall i | 0 <= i < |pieces|
      ensures |pieces[i]| == c
    {
      assert pieces[i] == enc(line[i]);
    }
    ConcatLength(pieces, c);
  }

  /** The grid's cells in buffer order: the last line first. */
  function Cells<T(!new), U>(grid: seq<seq<T>>, enc: T -> seq<U>): (cells: seq<seq<seq<U>>>)
    ensures |cells| == |grid|
    ensures forall r :: 0 <= r < |grid| ==> cells[r] == Pieces(grid[|grid| - 1 - r], enc)
  {
    seq(|grid|, r requires 0 <= r < |grid| => Pieces(grid[|grid| - 1 - r], enc))
  }

  /** A grid packed: its lines from the last one up, each packed. */
  function PackGrid<T(!new), U>(grid: seq<seq<T>>, enc: T -> seq<U>): seq<U>
  {
    Flatten(Cells(grid, enc))
  }

  lemma CellsGrid<T(!new), U>(grid: seq<seq<T>>, w: nat, enc: T -> seq<U>, c: nat)
    requires Rect(grid, w) && Fixed(enc, c)
    ensures Grid(Cells(grid, enc), w, c)
  {
    var cells := Cells(grid, enc);
    forall r | 0 <= r < |cells|
      ensures |cells[r]| == w && Uniform(cells[r], c)
    {
      var pieces := Pieces(grid[|grid| - 1 - r], enc);
      assert cells[r] == pieces;
      forall x | 0 <= x < |pieces|
        ensures |pieces[x]| == c
      {
        assert pieces[x] == enc(grid[|grid| - 1 - r][x]);
      }
    }
  }

  /** Packing one more item of a line appends its encoding. */
  lemma PackLineStep<T(!new), U>(line: seq<T>, x: nat, enc: T -> seq<U>)
    requires x < |line|
    ensures PackLine(line[..x + 1], enc) == PackLine(line[..x], enc) + enc(line[x])
  {
    assert Pieces(line[..x + 1], enc) == Pieces(line[..x], enc) + [enc(line[x])];
    ConcatSnoc(Pieces(line[..x], enc), enc(line[x]));
  }

  /** Packing one more line above the others appends its packing. */
  lemma PackGridStep<T(!new), U>(grid: seq<seq<T>>, i: nat, enc: T -> seq<U>)
    requires i < |grid|
    ensures PackGrid(grid[i..], enc) == PackGrid(grid[i + 1..], enc) + PackLine(grid[i], enc)
  {
    var g := grid[i..];
    assert g[1..] == grid[i + 1..];
    assert Cells(g, enc) == Cells(g[1..], enc) + [Pieces(g[0], enc)];
    FlattenSnoc(Cells(g[1..], enc), Pieces(g[0], enc));
  }

  lemma PackGridLength<T(!new), U>(grid: seq<seq<T>>, w: nat, enc: T -> seq<U>, c: nat)
    requires Rect(grid, w) && Fixed(enc, c)
    ensures |PackGrid(grid, enc)| == Mul(|grid|, Mul(w, c))
  {
    CellsGrid(grid, w, enc, c);
    FlattenLength(Cells(grid, enc), w, c);
  }

  /** Element `k` of item `x` of line `h - 1 - r` sits at offset
      `(r * w + x) * c + k` of the packed grid. */
  lemma PackGridAt<T(!new), U>(grid: seq<seq<T>>, w: nat, enc: T -> seq<U>, c: nat, r: nat, x: nat, k: nat)
    requires Rect(grid, w) && Fixed(enc, c)
    requires r < |grid| && x < w && k < c
    ensures Mul(r, Mul(w, c)) + Mul(x, c) + k < |PackGrid(grid, enc)|
    ensures PackGrid(grid, enc)[Mul(r, Mul(w, c)) + Mul(x, c) + k] == enc(grid[|grid| - 1 - r][x])[k]
  {
    CellsGrid(grid, w, enc, c);
    FlattenAt(Cells(grid, enc), w, c, r, x, k);
  }

  /** The slot of item `x` of line `h - 1 - r` holds exactly its encoding. */
  lemma PackGridSlot<T(!new), U>(grid: seq<seq<T>>, w: nat, enc: T -> seq<U>, c: nat, r: nat, x: nat)
    requires Rect(grid, w) && Fixed(enc, c)
    requires r < |grid| && x < w
    ensures Start(r, x, w, c) + c <= |PackGrid(grid, enc)|
    ensures PackGrid(grid, enc)[Start(r, x, w, c)..Start(r, x, w, c) + c] == enc(grid[|grid| - 1 - r][x])
  {
    CellsGrid(grid, w, enc, c);
    FlattenSlot(Cells(grid, enc), w, c, r, x);
  }

  /** A packed buffer of `h` lines of `w` items read back: item `x` of line
      `y` is decoded from its slot in buffer row `h - 1 - y`. */
  function UnpackGrid<T(!new), U>(buffer: seq<U>, w: nat, h: nat, c: nat, dec: seq<U> -> T): (grid: seq<seq<T>>)
    requires |buffer| == Mul(h, Mul(w, c))
    ensures |grid| == h && Rect(grid, w)
  {
    seq(h, y requires 0 <= y < h =>
      seq(w, x requires 0 <= x < w =>
        SlotInside(h, w, c, h - 1 - y, x);
        dec(buffer[Start(h - 1 - y, x, w, c)..Start(h - 1 - y, x, w, c) + c])))
  }

  lemma UnpackGridAt<T(!new), U>(buffer: seq<U>, w: nat, h: nat, c: nat, dec: seq<U> -> T, y: nat, x: nat)
    requires |buffer| == Mul(h, Mul(w, c)) && y < h && x < w
    ensures Start(h - 1 - y, x, w, c) + c <= |buffer|
    ensures UnpackGrid(buffer, w, h, c, dec)[y][x] == dec(buffer[Start(h - 1 - y, x, w, c)..Start(h - 1 - y, x, w, c) + c])
  {
    SlotInside(h, w, c, h - 1 - y, x);
  }

  /** Reading a packed grid back gives it again when decoding undoes the
      encoding of each of its items. */
  lemma UnpackPackGrid<T(!new), U>(grid: seq<seq<T>>, w: nat, enc: T -> seq<U>, c: nat, dec: seq<U> -> T)
    requires Rect(grid, w) && Fixed(enc, c)
    requires forall y, x :: 0 <= y < |grid| && 0 <= x < |grid[y]| ==> dec(enc(grid[y][x])) == grid[y][x]
    ensures |PackGrid(grid, enc)| == Mul(|grid|, Mul(w, c))
    ensures UnpackGrid(PackGrid(grid, enc), w, |grid|, c, dec) == grid
  {
    PackGridLength(grid, w, enc, c);
    var u := UnpackGrid(PackGrid(grid, enc), w, |grid|, c, dec);
    forall y | 0 <= y < |grid|
      ensures u[y] == grid[y]
    {
      forall x | 0 <= x < w
        ensures u[y][x] == grid[y][x]
      {
        UnpackPackItem(grid, w, enc, c, dec, y, x);
      }
    }
  }

  lemma UnpackPackItem<T(!new), U>(grid: seq<seq<T>>, w: nat, enc: T -> seq<U>, c: nat, dec: seq<U> -> T, y: nat, x: nat)
    requires Rect(grid, w) && Fixed(enc, c)
    requires y < |grid| && x < w && dec(enc(grid[y][x])) == grid[y][x]
    requires |PackGrid(grid, enc)| == Mul(|grid|, Mul(w, c))
    ensures UnpackGrid(PackGrid(grid, enc), w, |grid|, c, dec)[y][x] == grid[y][x]
  {
    var h := |grid|;
    var buffer := PackGrid(grid, enc);
    var r := h - 1 - y;
    var i := Start(r, x, w, c);
    UnpackGridAt(buffer, w, h, c, dec, y, x);
    PackGridSlot(grid, w, enc, c, r, x);
    assert buffer[i..i + c] == enc(grid[y][x]);
  }
}
