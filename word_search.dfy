/**
 * Day 4: the word search.
 *
 * The grid is a list of lines (`seq<seq<char>>`).  From every cell eight rays are
 * cast, and an occurrence of a word is a ray whose text starts with that word.
 * Lines may have different lengths: a ray can then pass positions that have no
 * cell, which is `None` here (`undefined` in the program).  Cell objects are
 * unique per position, so the program's object identity is value equality on
 * `Cell(char, row, col)`.
 */
module WordSearch {
  import opened Wrappers
  import Seqs

  type Grid = seq<seq<char>>

  datatype Cell = Cell(ch: char, row: nat, col: nat)

  datatype Direction = Right | Left | Down | Up | DownRight | UpLeft | DownLeft | UpRight

  /** The directions in the order in which the rays are cast. */
  const Directions: seq<Direction> := [Right, Left, Down, Up, DownRight, UpLeft, DownLeft, UpRight]

  function DirectionIndex(d: Direction): (k: nat)
    ensures k < |Directions| && Directions[k] == d
  {
    match d
    case Right => 0
    case Left => 1
    case Down => 2
    case Up => 3
    case DownRight => 4
    case UpLeft => 5
    case DownLeft => 6
    case UpRight => 7
  }

  /** A ray with its cells and the text of the cells that exist. */
  datatype Ray = Ray(direction: Direction, chars: seq<Option<Cell>>, word: string)

  /** An occurrence of `word`: the first `|word|` positions of a matching ray. */
  datatype Occurrence = Occurrence(direction: Direction, chars: seq<Option<Cell>>, word: string)

  /** Every line has the length of the first one. */
  ghost predicate Rectangular(g: Grid)
  {
    forall r :: 0 <= r < |g| ==> |g[r]| == |g[0]|
  }

  ghost predicate InGrid(g: Grid, r: int, c: int)
  {
    0 <= r < |g| && 0 <= c < |g[r]|
  }

  /** The cell at a position, or `None` when the grid has none there. */
  function CellAt(g: Grid, r: int, c: int): (x: Option<Cell>)
    ensures x.Some? <==> InGrid(g, r, c)
    ensures x.Some? ==> x.value == Cell(g[r][c], r, c)
  {
    if 0 <= r < |g| && 0 <= c < |g[r]| then Some(Cell(g[r][c], r, c)) else None
  }

  /** The row reached after `i` steps from row `r` in direction `d`. */
  function RowAt(d: Direction, r: int, i: int): int
  {
    match d
    case Down | DownRight | DownLeft => r + i
    case Up | UpLeft | UpRight => r - i
    case Right | Left => r
  }

  /** The column reached after `i` steps from column `c` in direction `d`. */
  function ColAt(d: Direction, c: int, i: int): int
  {
    match d
    case Right | DownRight | UpRight => c + i
    case Left | UpLeft | DownLeft => c - i
    case Down | Up => c
  }

  function Min(a: int, b: int): int
  {
    if a <= b then a else b
  }

  /**
   * The length of the ray from `(r, c)`: the number of rows is the number of lines
   * and the number of columns is the length of the start's own line.
   */
  function RayLength(g: Grid, d: Direction, r: nat, c: nat): (n: nat)
    requires r < |g| && c < |g[r]|
    ensures n >= 1
  {
    var nRows, nCols := |g|, |g[r]|;
    match d
    case Right => nCols - c
    case Left => c + 1
    case Down => nRows - r
    case Up => r + 1
    case DownRight => Min(nRows - r, nCols - c)
    case UpLeft => Min(r + 1, c + 1)
    case DownLeft => Min(nRows - r, c + 1)
    case UpRight => Min(r + 1, nCols - c)
  }

  /** The first `n` positions from `(r, c)` in direction `d`. */
  function Segment(g: Grid, d: Direction, r: int, c: int, n: nat): (s: seq<Option<Cell>>)
    ensures |s| == n
    ensures forall i :: 0 <= i < n ==> s[i] == CellAt(g, RowAt(d, r, i), ColAt(d, c, i))
  {
    seq(n, i => CellAt(g, RowAt(d, r, i), ColAt(d, c, i)))
  }

  /** The characters of the cells that exist, in order. */
  function WordOf(chars: seq<Option<Cell>>): (w: string)
    ensures |w| <= |chars|
  {
    if chars == [] then ""
    else (if chars[0].Some? then [chars[0].value.ch] else "") + WordOf(chars[1..])
  }

  /**
   * The ray from the cell at `(r, c)` in direction `d`: it starts at that cell, and
   * every position it names lies in one of the grid's lines.
   */
  function RayFrom(g: Grid, d: Direction, r: nat, c: nat): (ray: Ray)
    requires r < |g| && c < |g[r]|
    ensures ray.direction == d && |ray.chars| == RayLength(g, d, r, c)
    ensures ray.chars[0] == Some(Cell(g[r][c], r, c))
    ensures forall i :: 0 <= i < RayLength(g, d, r, c) ==> 0 <= RowAt(d, r, i) < |g| && 0 <= ColAt(d, c, i)
  {
    var chars := Segment(g, d, r, c, RayLength(g, d, r, c));
    Ray(d, chars, WordOf(chars))
  }

  /** The eight rays from the cell at `(r, c)`, in the order of `Directions`. */
  function WordsStartingAt(g: Grid, r: nat, c: nat): (rays: seq<Ray>)
    requires r < |g| && c < |g[r]|
    ensures |rays| == |Directions|
    ensures forall k :: 0 <= k < |rays| ==> rays[k] == RayFrom(g, Directions[k], r, c)
  {
    seq(|Directions|, k requires 0 <= k < |Directions| => RayFrom(g, Directions[k], r, c))
  }

  /**
   * In a rectangular grid a position `i` steps along a ray's direction lies inside
   * the grid exactly when `i` is below the ray's length: the ray stays in the grid
   * and goes all the way to its edge.
   */
  lemma RayLengthExact(g: Grid, d: Direction, r: nat, c: nat, i: nat)
    requires Rectangular(g)
    requires r < |g| && c < |g[r]|
    ensures i < RayLength(g, d, r, c) <==> InGrid(g, RowAt(d, r, i), ColAt(d, c, i))
  {
    if 0 <= RowAt(d, r, i) < |g| {
      assert |g[RowAt(d, r, i)]| == |g[0]| == |g[r]|;
    }
  }

  ghost predicate AllSome(chars: seq<Option<Cell>>)
  {
    forall i :: 0 <= i < |chars| ==> chars[i].Some?
  }

  /** When every position has a cell, the text of a ray reads its cells one for one. */
  lemma {:induction false} WordOfAllSome(chars: seq<Option<Cell>>)
    requires AllSome(chars)
    ensures |WordOf(chars)| == |chars|
    ensures forall i :: 0 <= i < |chars| ==> WordOf(chars)[i] == chars[i].value.ch
  {
    if chars != [] {
      WordOfAllSome(chars[1..]);
    }
  }

  /** In a rectangular grid every position of a ray has a cell. */
  lemma RayAllSome(g: Grid, d: Direction, r: nat, c: nat)
    requires Rectangular(g)
    requires r < |g| && c < |g[r]|
    ensures AllSome(RayFrom(g, d, r, c).chars)
  {
    var chars := RayFrom(g, d, r, c).chars;
    forall i | 0 <= i < |chars|
      ensures chars[i].Some?
    {
      RayLengthExact(g, d, r, c, i);
    }
  }

  /** `word` is written in the grid from `(r, c)` in direction `d`, one cell per character. */
  ghost predicate Spells(g: Grid, word: string, d: Direction, r: nat, c: nat)
  {
    forall i :: 0 <= i < |word| ==>
      CellAt(g, RowAt(d, r, i), ColAt(d, c, i)).Some? &&
      CellAt(g, RowAt(d, r, i), ColAt(d, c, i)).value.ch == word[i]
  }

  /** `String.prototype.startsWith`. */
  predicate StartsWith(w: string, word: string)
  {
    |word| <= |w| && w[..|word|] == word
  }

  /** In a rectangular grid a ray that starts with `word` spells it, and its first `|word|` cells are the word's. */
  lemma RayStartsWithSpells(g: Grid, word: string, d: Direction, r: nat, c: nat)
    requires Rectangular(g)
    requires r < |g| && c < |g[r]|
    requires StartsWith(RayFrom(g, d, r, c).word, word)
    ensures Spells(g, word, d, r, c)
    ensures Take(RayFrom(g, d, r, c).chars, |word|) == Segment(g, d, r, c, |word|)
  {
    var ray := RayFrom(g, d, r, c);
    RayAllSome(g, d, r, c);
    WordOfAllSome(ray.chars);
    forall i | 0 <= i < |word|
      ensures CellAt(g, RowAt(d, r, i), ColAt(d, c, i)).Some?
      ensures CellAt(g, RowAt(d, r, i), ColAt(d, c, i)).value.ch == word[i]
    {
      assert ray.word[..|word|][i] == word[i];
    }
  }

  /** In a rectangular grid a spelled word fits in the ray. */
  lemma SpellsFits(g: Grid, word: string, d: Direction, r: nat, c: nat)
    requires Rectangular(g)
    requires r < |g| && c < |g[r]|
    requires Spells(g, word, d, r, c)
    ensures |word| <= RayLength(g, d, r, c)
  {
    if |word| > 0 {
      assert CellAt(g, RowAt(d, r, |word| - 1), ColAt(d, c, |word| - 1)).Some?;
      RayLengthExact(g, d, r, c, |word| - 1);
    }
  }

  /** In a rectangular grid a spelled word is a prefix of the ray's text. */
  lemma SpellsRayStartsWith(g: Grid, word: string, d: Direction, r: nat, c: nat)
    requires Rectangular(g)
    requires r < |g| && c < |g[r]|
    requires Spells(g, word, d, r, c)
    ensures StartsWith(RayFrom(g, d, r, c).word, word)
    ensures Take(RayFrom(g, d, r, c).chars, |word|) == Segment(g, d, r, c, |word|)
  {
    var ray := RayFrom(g, d, r, c);
    SpellsFits(g, word, d, r, c);
    RayAllSome(g, d, r, c);
    WordOfAllSome(ray.chars);
    PrefixOf(ray.word, word, ray.chars);
  }

  /** A text that reads the cells one for one starts with the word those cells spell. */
  lemma PrefixOf(w: string, word: string, chars: seq<Option<Cell>>)
    requires |word| <= |chars| == |w|
    requires forall i :: 0 <= i < |chars| ==> chars[i].Some? && w[i] == chars[i].value.ch
    requires forall i :: 0 <= i < |word| ==> chars[i].value.ch == word[i]
    ensures StartsWith(w, word)
  {
    assert forall i :: 0 <= i < |word| ==> w[..|word|][i] == word[i];
  }

  /** The cells of line `r` in column order. */
  function RowCells(g: Grid, r: nat): (cells: seq<Cell>)
    requires r < |g|
    ensures |cells| == |g[r]|
    ensures forall c :: 0 <= c < |cells| ==> cells[c] == Cell(g[r][c], r, c)
  {
    seq(|g[r]|, c requires 0 <= c < |g[r]| => Cell(g[r][c], r, c))
  }

  /** The cells of lines `r..`, row by row. */
  function CellsFrom(g: Grid, r: nat): (cells: seq<Cell>)
    requires r <= |g|
    ensures forall x :: x in cells ==> r <= x.row < |g| && x.col < |g[x.row]| && x.ch == g[x.row][x.col]
    decreases |g| - r
  {
    if r == |g| then [] else RowCells(g, r) + CellsFrom(g, r + 1)
  }

  lemma {:induction false} CellsFromHas(g: Grid, r0: nat, r: nat, c: nat)
    requires r0 <= r < |g| && c < |g[r]|
    ensures Cell(g[r][c], r, c) in CellsFrom(g, r0)
    decreases r - r0
  {
    if r0 == r {
      assert RowCells(g, r)[c] == Cell(g[r][c], r, c);
    } else {
      CellsFromHas(g, r0 + 1, r, c);
    }
  }

  /** lodash `take`: the first `n` elements, or all of them when there are fewer. */
  function Take<T>(s: seq<T>, n: nat): (t: seq<T>)
    ensures n <= |s| ==> t == s[..n]
    ensures n > |s| ==> t == s
  {
    if n <= |s| then s[..n] else s
  }

  /** The occurrences among `rays`: those whose text starts with `word`, cut to `|word|` positions. */
  function RayMatches(word: string, rays: seq<Ray>): (occs: seq<Occurrence>)
    ensures forall o :: o in occs ==> o.word == word
  {
    if rays == [] then []
    else
      (if StartsWith(rays[0].word, word)
       then [Occurrence(rays[0].direction, Take(rays[0].chars, |word|), word)]
       else []) + RayMatches(word, rays[1..])
  }

  /** The occurrences from the cells in `cells` whose character is the word's first one. */
  function OccurrencesFrom(g: Grid, word: string, cells: seq<Cell>): (occs: seq<Occurrence>)
    requires forall x :: x in cells ==> x.row < |g| && x.col < |g[x.row]|
  {
    if cells == [] then []
    else
      var x := cells[0];
      (if word != [] && x.ch == word[0] then RayMatches(word, WordsStartingAt(g, x.row, x.col)) else [])
      + OccurrencesFrom(g, word, cells[1..])
  }

  /**
   * `findWords`: the occurrences of `word`, start cell by start cell in row-major
   * order and, for each start, in the order of `Directions`.
   */
  function FindWords(g: Grid, word: string): (occs: seq<Occurrence>)
  {
    OccurrencesFrom(g, word, CellsFrom(g, 0))
  }

  /** Where an element of `RayMatches` comes from. */
  lemma {:induction false} RayMatchesSource(word: string, rays: seq<Ray>, o: Occurrence) returns (k: nat)
    requires o in RayMatches(word, rays)
    ensures k < |rays| && StartsWith(rays[k].word, word)
    ensures o == Occurrence(rays[k].direction, Take(rays[k].chars, |word|), word)
  {
    if StartsWith(rays[0].word, word) && o == Occurrence(rays[0].direction, Take(rays[0].chars, |word|), word) {
      k := 0;
    } else {
      var k' := RayMatchesSource(word, rays[1..], o);
      k := k' + 1;
    }
  }

  lemma {:induction false} RayMatchesHas(word: string, rays: seq<Ray>, k: nat)
    requires k < |rays| && StartsWith(rays[k].word, word)
    ensures Occurrence(rays[k].direction, Take(rays[k].chars, |word|), word) in RayMatches(word, rays)
  {
    if k > 0 {
      RayMatchesHas(word, rays[1..], k - 1);
    }
  }

  /** Where an element of `OccurrencesFrom` comes from. */
  lemma {:induction false} OccurrencesFromSource(g: Grid, word: string, cells: seq<Cell>, o: Occurrence)
    returns (x: Cell, k: nat)
    requires forall y :: y in cells ==> y.row < |g| && y.col < |g[y.row]|
    requires o in OccurrencesFrom(g, word, cells)
    ensures x in cells && word != [] && x.ch == word[0]
    ensures k < |Directions| && StartsWith(RayFrom(g, Directions[k], x.row, x.col).word, word)
    ensures o == Occurrence(Directions[k], Take(RayFrom(g, Directions[k], x.row, x.col).chars, |word|), word)
  {
    var y := cells[0];
    if word != [] && y.ch == word[0] && o in RayMatches(word, WordsStartingAt(g, y.row, y.col)) {
      x := y;
      k := RayMatchesSource(word, WordsStartingAt(g, y.row, y.col), o);
    } else {
      x, k := OccurrencesFromSource(g, word, cells[1..], o);
    }
  }

  lemma {:induction false} OccurrencesFromHas(g: Grid, word: string, cells: seq<Cell>, j: nat, o: Occurrence)
    requires forall y :: y in cells ==> y.row < |g| && y.col < |g[y.row]|
    requires j < |cells| && word != [] && cells[j].ch == word[0]
    requires o in RayMatches(word, WordsStartingAt(g, cells[j].row, cells[j].col))
    ensures o in OccurrencesFrom(g, word, cells)
  {
    if j > 0 {
      OccurrencesFromHas(g, word, cells[1..], j - 1, o);
    }
  }

  /**
   * Every occurrence is the word's length long, is tagged with the word, and
   * starts at a cell of the grid holding the word's first character.
   */
  lemma FindWordsShape(g: Grid, word: string, o: Occurrence)
    requires o in FindWords(g, word)
    ensures word != [] && o.word == word && |o.chars| == |word|
    ensures o.chars[0].Some? && o.chars[0].value.ch == word[0]
    ensures InGrid(g, o.chars[0].value.row, o.chars[0].value.col)
  {
    var x, k := OccurrencesFromSource(g, word, CellsFrom(g, 0), o);
    var ray := RayFrom(g, Directions[k], x.row, x.col);
    assert |WordOf(ray.chars)| <= |ray.chars|;
  }

  /**
   * `o` is an occurrence of `word` written in the grid: its first cell is a grid
   * cell, and its cells are the `|word|` consecutive positions from there in its
   * direction, spelling the word.
   */
  ghost predicate IsOccurrence(g: Grid, word: string, o: Occurrence)
  {
    word != [] && o.word == word && |o.chars| == |word| && o.chars[0].Some? &&
    var start := o.chars[0].value;
    InGrid(g, start.row, start.col) &&
    Spells(g, word, o.direction, start.row, start.col) &&
    o.chars == Segment(g, o.direction, start.row, start.col, |word|)
  }

  /** In a rectangular grid every occurrence found is written in the grid. */
  lemma FindWordsSound(g: Grid, word: string, o: Occurrence)
    requires Rectangular(g)
    requires o in FindWords(g, word)
    ensures IsOccurrence(g, word, o)
  {
    var x, k := OccurrencesFromSource(g, word, CellsFrom(g, 0), o);
    RayStartsWithSpells(g, word, Directions[k], x.row, x.col);
    assert o.chars[0] == CellAt(g, x.row, x.col);
  }

  /** In a rectangular grid every place where the word is written is found. */
  lemma FindWordsComplete(g: Grid, word: string, d: Direction, r: nat, c: nat)
    requires Rectangular(g)
    requires r < |g| && c < |g[r]| && word != []
    requires Spells(g, word, d, r, c)
    ensures Occurrence(d, Segment(g, d, r, c, |word|), word) in FindWords(g, word)
  {
    var cells := CellsFrom(g, 0);
    CellsFromHas(g, 0, r, c);
    var j :| 0 <= j < |cells| && cells[j] == Cell(g[r][c], r, c);
    assert CellAt(g, RowAt(d, r, 0), ColAt(d, c, 0)).value.ch == word[0];
    SpellsRayStartsWith(g, word, d, r, c);
    var k := DirectionIndex(d);
    RayMatchesHas(word, WordsStartingAt(g, r, c), k);
    OccurrencesFromHas(g, word, cells, j, Occurrence(d, Segment(g, d, r, c, |word|), word));
  }

  predicate IsDiagonal(d: Direction)
  {
    d.DownRight? || d.UpLeft? || d.DownLeft? || d.UpRight?
  }

  /** The diagonal occurrences, in order. */
  function Diagonals(occs: seq<Occurrence>): (diag: seq<Occurrence>)
    ensures forall o :: o in diag ==> o in occs && IsDiagonal(o.direction)
  {
    if occs == [] then []
    else (if IsDiagonal(occs[0].direction) then [occs[0]] else []) + Diagonals(occs[1..])
  }

  lemma {:induction false} DiagonalsHas(occs: seq<Occurrence>, o: Occurrence)
    requires o in occs && IsDiagonal(o.direction)
    ensures o in Diagonals(occs)
  {
    if occs[0] != o {
      DiagonalsHas(occs[1..], o);
    }
  }

  lemma {:induction false} DiagonalsSubsequence(occs: seq<Occurrence>)
    ensures Seqs.Subsequence(Diagonals(occs), occs)
  {
    if occs != [] {
      DiagonalsSubsequence(occs[1..]);
      if IsDiagonal(occs[0].direction) {
        assert ([occs[0]] + Diagonals(occs[1..]))[1..] == Diagonals(occs[1..]);
      } else {
        assert Diagonals(occs) == Diagonals(occs[1..]);
        Seqs.SubsequenceSkip(Diagonals(occs), occs);
      }
    }
  }

  /** `chars[k]`, which is `undefined` (here `None`) outside the list. */
  function CharAt(chars: seq<Option<Cell>>, k: int): (x: Option<Cell>)
    ensures 0 <= k < |chars| ==> x == chars[k]
    ensures !(0 <= k < |chars|) ==> x.None?
  {
    if 0 <= k < |chars| then chars[k] else None
  }

  /** Some other occurrence of `diag` has the same cell (or the same `undefined`) at position `k`. */
  predicate Crosses(diag: seq<Occurrence>, i: nat, k: int)
    requires i < |diag|
  {
    exists j :: 0 <= j < |diag| && j != i && CharAt(diag[j].chars, k) == CharAt(diag[i].chars, k)
  }

  /** The occurrences of `diag` from index `i` on that cross another one. */
  function KeepCrossed(diag: seq<Occurrence>, k: int, i: nat): (kept: seq<Occurrence>)
    requires i <= |diag|
    decreases |diag| - i
  {
    if i == |diag| then []
    else (if Crosses(diag, i, k) then [diag[i]] else []) + KeepCrossed(diag, k, i + 1)
  }

  /** `findCrossedWords`: the diagonal occurrences that cross another diagonal one at position `k`. */
  function FindCrossedWords(g: Grid, word: string, k: int): (occs: seq<Occurrence>)
  {
    var diag := Diagonals(FindWords(g, word));
    KeepCrossed(diag, k, 0)
  }

  lemma {:induction false} KeepCrossedSource(diag: seq<Occurrence>, k: int, i: nat, o: Occurrence) returns (j: nat)
    requires i <= |diag|
    requires o in KeepCrossed(diag, k, i)
    ensures i <= j < |diag| && diag[j] == o && Crosses(diag, j, k)
    decreases |diag| - i
  {
    if Crosses(diag, i, k) && diag[i] == o {
      j := i;
    } else {
      j := KeepCrossedSource(diag, k, i + 1, o);
    }
  }

  lemma {:induction false} KeepCrossedHas(diag: seq<Occurrence>, k: int, i: nat, j: nat)
    requires i <= j < |diag| && Crosses(diag, j, k)
    ensures diag[j] in KeepCrossed(diag, k, i)
    decreases j - i
  {
    if i < j {
      KeepCrossedHas(diag, k, i + 1, j);
    }
  }

  lemma {:induction false} KeepCrossedSubsequence(diag: seq<Occurrence>, k: int, i: nat)
    requires i <= |diag|
    ensures Seqs.Subsequence(KeepCrossed(diag, k, i), diag[i..])
    decreases |diag| - i
  {
    if i < |diag| {
      KeepCrossedSubsequence(diag, k, i + 1);
      assert diag[i..][0] == diag[i] && diag[i..][1..] == diag[i + 1..];
      if Crosses(diag, i, k) {
        assert ([diag[i]] + KeepCrossed(diag, k, i + 1))[1..] == KeepCrossed(diag, k, i + 1);
      } else {
        assert KeepCrossed(diag, k, i) == KeepCrossed(diag, k, i + 1);
        Seqs.SubsequenceSkip(KeepCrossed(diag, k, i), diag[i..]);
      }
    }
  }

  /** The crossed occurrences are found occurrences, kept in their order. */
  lemma FindCrossedWordsSubsequence(g: Grid, word: string, k: int)
    ensures Seqs.Subsequence(FindCrossedWords(g, word, k), FindWords(g, word))
  {
    var occs := FindWords(g, word);
    var diag := Diagonals(occs);
    KeepCrossedSubsequence(diag, k, 0);
    assert diag[0..] == diag;
    DiagonalsSubsequence(occs);
    Seqs.SubsequenceTransitive(FindCrossedWords(g, word, k), diag, occs);
  }

  /**
   * An occurrence is kept exactly when it is a diagonal one and another diagonal
   * occurrence (another index) holds the same cell at position `k`.
   */
  lemma FindCrossedWordsSound(g: Grid, word: string, k: int, o: Occurrence) returns (diag: seq<Occurrence>, i: nat)
    requires o in FindCrossedWords(g, word, k)
    ensures diag == Diagonals(FindWords(g, word))
    ensures i < |diag| && diag[i] == o && IsDiagonal(o.direction) && o in FindWords(g, word)
    ensures exists j :: 0 <= j < |diag| && j != i && CharAt(diag[j].chars, k) == CharAt(o.chars, k)
  {
    diag := Diagonals(FindWords(g, word));
    i := KeepCrossedSource(diag, k, 0, o);
    assert diag[i] in diag;
  }

  lemma FindCrossedWordsComplete(g: Grid, word: string, k: int, i: nat, j: nat)
    requires var diag := Diagonals(FindWords(g, word));
             i < |diag| && j < |diag| && i != j && CharAt(diag[j].chars, k) == CharAt(diag[i].chars, k)
    ensures Diagonals(FindWords(g, word))[i] in FindCrossedWords(g, word, k)
  {
    KeepCrossedHas(Diagonals(FindWords(g, word)), k, 0, i);
  }

  /**
   * With a position outside the word both sides read `undefined`, so every
   * diagonal occurrence is kept as soon as there are two of them.
   */
  lemma FindCrossedWordsOutside(g: Grid, word: string, k: int)
    requires k < 0 || k >= |word|
    requires |Diagonals(FindWords(g, word))| >= 2
    ensures FindCrossedWords(g, word, k) == Diagonals(FindWords(g, word))
  {
    var diag := Diagonals(FindWords(g, word));
    forall o | o in FindWords(g, word)
      ensures |o.chars| == |word|
    {
      FindWordsShape(g, word, o);
    }
    KeepCrossedAll(diag, k, 0);
    assert diag[0..] == diag;
  }

  lemma {:induction false} KeepCrossedAll(diag: seq<Occurrence>, k: int, i: nat)
    requires i <= |diag| && |diag| >= 2
    requires forall j :: 0 <= j < |diag| ==> !(0 <= k < |diag[j].chars|)
    ensures KeepCrossed(diag, k, i) == diag[i..]
    decreases |diag| - i
  {
    if i < |diag| {
      var j := if i == 0 then 1 else 0;
      assert CharAt(diag[j].chars, k) == CharAt(diag[i].chars, k);
      KeepCrossedAll(diag, k, i + 1);
      assert diag[i..] == [diag[i]] + diag[i + 1..];
    }
  }

  /** The positions of the cells that some occurrence holds. */
  function CoveredCells(occs: seq<Occurrence>): (covered: set<(int, int)>)
  {
    if occs == [] then {}
    else
      (set k | 0 <= k < |occs[0].chars| && occs[0].chars[k].Some? ::
         (occs[0].chars[k].value.row, occs[0].chars[k].value.col))
      + CoveredCells(occs[1..])
  }

  ghost predicate Covers(occs: seq<Occurrence>, r: int, c: int)
  {
    exists i, k :: 0 <= i < |occs| && 0 <= k < |occs[i].chars| && occs[i].chars[k].Some? &&
      occs[i].chars[k].value.row == r && occs[i].chars[k].value.col == c
  }

  lemma {:induction false} CoveredCellsIff(occs: seq<Occurrence>, r: int, c: int)
    ensures (r, c) in CoveredCells(occs) <==> Covers(occs, r, c)
  {
    if occs != [] {
      CoveredCellsIff(occs[1..], r, c);
      if Covers(occs[1..], r, c) {
        var i, k :| 0 <= i < |occs[1..]| && 0 <= k < |occs[1..][i].chars| && occs[1..][i].chars[k].Some? &&
          occs[1..][i].chars[k].value.row == r && occs[1..][i].chars[k].value.col == c;
        assert occs[i + 1] == occs[1..][i];
      }
      if Covers(occs, r, c) {
        var i, k :| 0 <= i < |occs| && 0 <= k < |occs[i].chars| && occs[i].chars[k].Some? &&
          occs[i].chars[k].value.row == r && occs[i].chars[k].value.col == c;
        if i > 0 {
          assert occs[1..][i - 1] == occs[i];
        }
      }
    }
  }

  /** One line of the rendering: covered cells show their character, the others `.`. */
  function RenderLine(g: Grid, covered: set<(int, int)>, r: nat): (line: string)
    requires r < |g|
  {
    seq(|g[r]|, c requires 0 <= c < |g[r]| => if (r, c) in covered then g[r][c] else '.')
  }

  function RenderLines(g: Grid, occs: seq<Occurrence>): (lines: seq<string>)
  {
    var covered := CoveredCells(occs);
    seq(|g|, r requires 0 <= r < |g| => RenderLine(g, covered, r))
  }

  /** `wordOccurencesToString`: the rendered lines joined by newlines. */
  function OccurrencesToString(g: Grid, occs: seq<Occurrence>): (s: string)
  {
    Seqs.Join(RenderLines(g, occs), '\n')
  }

  /**
   * The rendering has the grid's shape: one line per grid line, as long as it, and
   * a cell keeps its character exactly when some occurrence covers it.
   */
  lemma OccurrencesToStringShape(g: Grid, occs: seq<Occurrence>)
    requires |g| >= 1
    requires forall r :: 0 <= r < |g| ==> '\n' !in g[r]
    ensures var lines := Seqs.Split(OccurrencesToString(g, occs), '\n');
      |lines| == |g| &&
      (forall r :: 0 <= r < |g| ==> |lines[r]| == |g[r]|) &&
      (forall r, c :: 0 <= r < |g| && 0 <= c < |g[r]| ==>
         lines[r][c] == if Covers(occs, r, c) then g[r][c] else '.')
  {
    var lines := RenderLines(g, occs);
    forall r | 0 <= r < |lines|
      ensures '\n' !in lines[r]
    {
      assert forall c :: 0 <= c < |lines[r]| ==> lines[r][c] == g[r][c] || lines[r][c] == '.';
    }
    Seqs.SplitJoin(lines, '\n');
    forall r, c | 0 <= r < |g| && 0 <= c < |g[r]|
      ensures lines[r][c] == if Covers(occs, r, c) then g[r][c] else '.'
    {
      CoveredCellsIff(occs, r, c);
    }
  }
}
