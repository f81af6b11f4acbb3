/** `print_packages` of panes/utils.py: a list of package names laid out in
    fixed-width columns, row by row, each name coloured by whether it is in the
    "green" or the "red" set. The terminal handle is reduced to the four escape
    sequences the grid uses, and the printed rows are returned instead of
    written to standard output. */
module PackageGrid {
  import opened Text

  /** The styling sequences the terminal handle supplies, as opaque text. */
  datatype Terminal = Terminal(bold: string, green: string, red: string, normal: string)

  /** What a call comes to: the rows it prints, or the ZeroDivisionError it
      raises when the cell width or the column count is zero. */
  datatype Outcome = Rows(lines: seq<string>) | ZeroDivisionError

  /** The cell width the source uses when its caller gives none. */
  const DefaultMaxChars: int := 14

  /** Python's floor division `a // b`, for divisors of either sign. */
  function FloorDiv(a: int, b: int): (q: int)
    requires b != 0
    ensures b > 0 ==> b * q <= a < b * q + b
    ensures b < 0 ==> b * q >= a > b * q + b
  {
    if b > 0 then a / b
    else
      var q := (-a) / (-b);
      assert (-b) * q <= -a < (-b) * q + (-b);
      assert b * q == -((-b) * q);
      q
  }

  /** `math.ceil(a / b)`, with the quotient taken exactly. */
  function CeilDiv(a: int, b: int): (r: int)
    requires b != 0
    ensures b > 0 ==> b * (r - 1) < a <= b * r
    ensures b > 0 && a >= 0 ==> r >= 0
    ensures b < 0 && a >= 0 ==> r <= 0
  {
    var q := FloorDiv(-a, b);
    assert b * (-q) == -(b * q);
    -q
  }

  /** The colour prefix of one package: green wins over red, and a package in
      neither set gets none. */
  function ColorOf(term: Terminal, pkg: string, red: set<string>, green: set<string>): string {
    if pkg in green then term.bold + term.green
    else if pkg in red then term.bold + term.red
    else ""
  }

  function Colors(term: Terminal, pkgs: seq<string>, red: set<string>, green: set<string>): seq<string> {
    seq(|pkgs|, k requires 0 <= k < |pkgs| => ColorOf(term, pkgs[k], red, green))
  }

  /** The loop that collects one colour prefix per package, in order. */
  method ColorCodes(term: Terminal, pkgs: seq<string>, red: set<string>, green: set<string>)
    returns (color: seq<string>)
    ensures |color| == |pkgs|
    ensures forall k | 0 <= k < |pkgs| && pkgs[k] in green :: color[k] == term.bold + term.green
    ensures forall k | 0 <= k < |pkgs| && pkgs[k] !in green && pkgs[k] in red ::
      color[k] == term.bold + term.red
    ensures forall k | 0 <= k < |pkgs| && pkgs[k] !in green && pkgs[k] !in red :: color[k] == ""
    ensures color == Colors(term, pkgs, red, green)
  {
    color := [];
    for k := 0 to |pkgs|
      invariant |color| == k
      invariant forall m | 0 <= m < k :: color[m] == ColorOf(term, pkgs[m], red, green)
    {
      if pkgs[k] in green {
        color := color + [term.bold + term.green];
      } else if pkgs[k] in red {
        color := color + [term.bold + term.red];
      } else {
        color := color + [""];
      }
    }
  }

  /** Python's slice `s[:k]`: a negative `k` counts back from the end. */
  function PrefixSlice(s: string, k: int): string {
    if k >= 0 then s[..if k <= |s| then k else |s|]
    else s[..if |s| + k >= 0 then |s| + k else 0]
  }

  /** The name as its cell shows it: a name longer than `maxChars - 1` is cut
      to `maxChars - 2` characters and marked with "+ ". */
  function Shown(pkg: string, maxChars: int): string {
    if |pkg| > maxChars - 1 then PrefixSlice(pkg, maxChars - 2) + "+ " else pkg
  }

  /** The visible text of a cell: the shown name and its padding. */
  function Visible(pkg: string, maxChars: int): string {
    var shown := Shown(pkg, maxChars);
    shown + Repeat(' ', maxChars - |shown|)
  }

  /** One printed cell: colour prefix, shown name, reset sequence, padding. */
  function Cell(term: Terminal, color: string, pkg: string, maxChars: int): string {
    var shown := Shown(pkg, maxChars);
    color + shown + term.normal + Repeat(' ', maxChars - |shown|)
  }

  /** The printed cell is the colour prefix, the shown name, the reset
      sequence and the padding, and with a cell width of at least two the shown
      name with its padding, the cell's visible text, is exactly `maxChars`
      characters: a name that does not fit keeps its first `maxChars - 2`
      characters followed by "+ " and gets no padding, any other name is padded
      with spaces. */
  lemma CellWidth(term: Terminal, color: string, pkg: string, maxChars: int)
    requires maxChars >= 2
    ensures var shown := Shown(pkg, maxChars);
      var pad := Repeat(' ', maxChars - |shown|);
      && Cell(term, color, pkg, maxChars) == color + shown + term.normal + pad
      && Visible(pkg, maxChars) == shown + pad
    ensures |Visible(pkg, maxChars)| == maxChars
    ensures |pkg| >= maxChars ==> Visible(pkg, maxChars) == pkg[..maxChars - 2] + "+ "
    ensures |pkg| < maxChars ==>
      Visible(pkg, maxChars) == pkg + Repeat(' ', maxChars - |pkg|)
  {
    if |pkg| >= maxChars {
      assert Repeat(' ', 0) == "";
      assert Visible(pkg, maxChars) == pkg[..maxChars - 2] + "+ " + "";
    }
  }

  function Cells(term: Terminal, maxChars: int, pkgs: seq<string>, colors: seq<string>): seq<string>
    requires |colors| == |pkgs|
  {
    seq(|pkgs|, k requires 0 <= k < |pkgs| => Cell(term, colors[k], pkgs[k], maxChars))
  }

  /** The number of cells in row `i`: full rows of `columns`, and what is left
      over in the last. */
  function RowLength(n: nat, columns: nat, i: nat): nat {
    if n <= columns * i then 0
    else if n - columns * i < columns then n - columns * i
    else columns
  }

  function RowCount(n: nat, columns: nat): nat
    requires columns > 0
  {
    CeilDiv(n, columns)
  }

  /** The package indices of each printed row, as the source's nested loops
      visit them: row `i`, column `j` holds index `j + columns * i`. */
  function Layout(n: nat, columns: nat): (rows: seq<seq<nat>>)
    requires columns > 0
    ensures forall i, j | 0 <= i < |rows| && 0 <= j < |rows[i]| ::
      rows[i][j] == j + columns * i < n
  {
    seq(RowCount(n, columns), i requires 0 <= i =>
      seq(RowLength(n, columns, i), j requires 0 <= j => j + columns * i))
  }

  /** The layout has ceil(n / columns) rows, none when there is nothing to show. */
  lemma LayoutRowCount(n: nat, columns: nat)
    requires columns > 0
    ensures var r := |Layout(n, columns)|;
      && (n == 0 <==> r == 0)
      && (n > 0 ==> columns * (r - 1) < n <= columns * r)
  {
    var r := |Layout(n, columns)|;
    assert columns * (r - 1) < n <= columns * r;
    if n == 0 && r > 0 {
      MulMonotone(columns, 0, r - 1);
    }
  }

  /** Every row but the last holds `columns` cells; the last holds what
      remains, `n - columns * (rows - 1)`. */
  lemma LayoutRowLengths(n: nat, columns: nat)
    requires columns > 0
    ensures var rows := Layout(n, columns);
      && (forall i | 0 <= i < |rows| - 1 :: |rows[i]| == columns)
      && (|rows| > 0 ==> |rows[|rows| - 1]| == n - columns * (|rows| - 1))
  {
    var rows := Layout(n, columns);
    var r := |rows|;
    LayoutRowCount(n, columns);
    forall i | 0 <= i < r - 1
      ensures |rows[i]| == columns
    {
      FullRow(n, columns, i, r);
    }
    if r > 0 {
      assert columns * (r - 1) + columns == columns * r;
      assert |rows[r - 1]| == RowLength(n, columns, r - 1);
    }
  }

  lemma FullRow(n: nat, columns: nat, i: nat, r: nat)
    requires columns > 0 && i < r - 1 && columns * (r - 1) < n
    ensures RowLength(n, columns, i) == columns
  {
    assert columns * i + columns == columns * (i + 1);
    MulMonotone(columns, i + 1, r - 1);
  }

  lemma MulMonotone(c: nat, a: int, b: int)
    requires a <= b
    ensures c * a <= c * b
  {
  }

  /** Every index below `n` sits in exactly one place: row `k / columns`,
      column `k % columns`. */
  lemma LayoutPosition(n: nat, columns: nat, k: nat)
    requires columns > 0 && k < n
    ensures var rows := Layout(n, columns);
      && k / columns < |rows| && k % columns < |rows[k / columns]|
      && rows[k / columns][k % columns] == k
      && forall i, j | 0 <= i < |rows| && 0 <= j < |rows[i]| && rows[i][j] == k ::
           i == k / columns && j == k % columns
  {
    LayoutFind(n, columns, k);
    LayoutOnce(n, columns, k);
  }

  lemma LayoutFind(n: nat, columns: nat, k: nat)
    requires columns > 0 && k < n
    ensures var rows := Layout(n, columns);
      && k / columns < |rows| && k % columns < |rows[k / columns]|
      && rows[k / columns][k % columns] == k
  {
    var q, m := k / columns, k % columns;
    PositionInRange(n, columns, k);
    LayoutAt(n, columns, q, m);
    DivMod(k, columns);
  }

  lemma LayoutAt(n: nat, columns: nat, i: nat, j: nat)
    requires columns > 0 && i < RowCount(n, columns) && j < RowLength(n, columns, i)
    ensures var rows := Layout(n, columns);
      i < |rows| && j < |rows[i]| && rows[i][j] == j + columns * i
  {
  }

  lemma DivMod(k: nat, c: nat)
    requires c > 0
    ensures k == k % c + c * (k / c)
  {
  }

  lemma LayoutOnce(n: nat, columns: nat, k: nat)
    ensures var rows := Layout(n, columns);
      forall i, j | 0 <= i < |rows| && 0 <= j < |rows[i]| && rows[i][j] == k ::
        i == k / columns && j == k % columns
    requires columns > 0
  {
    var rows := Layout(n, columns);
    forall i, j | 0 <= i < |rows| && 0 <= j < |rows[i]| && rows[i][j] == k
      ensures i == k / columns && j == k % columns
    {
      DivisionUnique(k, columns, i, j);
    }
  }

  lemma PositionInRange(n: nat, columns: nat, k: nat)
    requires columns > 0 && k < n
    ensures k / columns < RowCount(n, columns)
    ensures k % columns < RowLength(n, columns, k / columns)
  {
    var q, m := k / columns, k % columns;
    var r := RowCount(n, columns);
    assert k == columns * q + m;
    assert columns * (r - 1) < n <= columns * r;
    if q >= r {
      MulMonotone(columns, r, q);
    }
  }

  lemma DivisionUnique(k: nat, c: nat, i: nat, j: nat)
    requires c > 0 && j < c && k == j + c * i
    ensures i == k / c && j == k % c
  {
    var q, m := k / c, k % c;
    assert k == c * q + m;
    if i > q {
      MulMonotone(c, q + 1, i);
    } else if i < q {
      MulMonotone(c, i + 1, q);
    }
  }

  /** The rows of a layout, one after the other. */
  function Flatten(rows: seq<seq<nat>>): seq<nat> {
    if rows == [] then [] else Flatten(rows[..|rows| - 1]) + rows[|rows| - 1]
  }

  lemma {:induction false} FlattenLayoutPrefix(n: nat, columns: nat, r: nat)
    requires columns > 0 && r <= RowCount(n, columns)
    ensures Flatten(Layout(n, columns)[..r]) == seq(RowsEnd(n, columns, r), k => k)
  {
    var rows := Layout(n, columns);
    if r == 0 {
      assert rows[..0] == [];
    } else {
      FlattenLayoutPrefix(n, columns, r - 1);
      assert rows[..r][..r - 1] == rows[..r - 1];
      RowExtent(n, columns, r);
      var lo := columns * (r - 1);
      assert Flatten(rows[..r]) == seq(lo, k => k) + rows[r - 1];
    }
  }

  /** How many indices the first `r` rows hold together. */
  function RowsEnd(n: nat, columns: nat, r: nat): nat {
    if columns * r <= n then columns * r else n
  }

  lemma RowExtent(n: nat, columns: nat, r: nat)
    requires columns > 0 && 0 < r <= RowCount(n, columns)
    ensures RowsEnd(n, columns, r - 1) == columns * (r - 1)
    ensures columns * (r - 1) + RowLength(n, columns, r - 1) == RowsEnd(n, columns, r)
  {
    var c := RowCount(n, columns);
    assert columns * (c - 1) < n;
    MulMonotone(columns, r - 1, c - 1);
    assert columns * (r - 1) + columns == columns * r;
  }

  /** Reading the rows in order visits every index below `n` exactly once,
      in increasing order. */
  lemma LayoutInOrder(n: nat, columns: nat)
    requires columns > 0
    ensures Flatten(Layout(n, columns)) == seq(n, k => k)
  {
    var rows := Layout(n, columns);
    FlattenLayoutPrefix(n, columns, |rows|);
    LayoutRowCount(n, columns);
    assert rows[..|rows|] == rows;
    assert RowsEnd(n, columns, |rows|) == n;
  }

  /** The cells that the indices `row` pick out, in order. */
  function Pick(cells: seq<string>, row: seq<nat>): seq<string> {
    seq(|row|, j requires 0 <= j < |row| => if row[j] < |cells| then cells[row[j]] else "")
  }

  /** The rows `print_packages` prints once it has a non-zero column count:
      none for a negative count, otherwise one per row of the layout, each the
      gutter followed by its cells. */
  function Grid(term: Terminal, gutter: string, maxChars: int, columns: int,
                pkgs: seq<string>, colors: seq<string>): seq<string>
    requires columns != 0 && |colors| == |pkgs|
  {
    if columns < 0 then []
    else
      var cells := Cells(term, maxChars, pkgs, colors);
      var layout := Layout(|pkgs|, columns);
      seq(|layout|, i requires 0 <= i < |layout| => gutter + Concat(Pick(cells, layout[i])))
  }

  lemma PrefixStep<T>(s: seq<T>, i: nat)
    requires i < |s|
    ensures s[..i + 1] == s[..i] + [s[i]]
  {
  }

  /** Forty characters of width, a two-space gutter and the default cell
      width give two columns, so five packages fill three rows and the last
      row holds a single package. */
  lemma FivePackagesInFortyColumns()
    ensures FloorDiv(40 - 2 * |"  "|, DefaultMaxChars) == 2
    ensures Layout(5, 2) == [[0, 1], [2, 3], [4]]
  {
    assert CeilDiv(5, 2) == 3;
    var rows := Layout(5, 2);
    assert rows[0] == [0, 1];
    assert rows[1] == [2, 3];
    assert rows[2] == [4];
  }

  lemma {:induction false} ConcatPicks(cells: seq<string>, rows: seq<seq<nat>>)
    ensures Concat(Bodies(cells, rows)) == Concat(Pick(cells, Flatten(rows)))
    decreases |rows|
  {
    if rows != [] {
      var init, last := rows[..|rows| - 1], rows[|rows| - 1];
      var bodies := Bodies(cells, rows);
      calc {
        Concat(bodies);
        Concat(bodies[..|rows| - 1]) + bodies[|rows| - 1];
        { assert bodies[..|rows| - 1] == Bodies(cells, init); }
        Concat(Bodies(cells, init)) + Concat(Pick(cells, last));
        { ConcatPicks(cells, init); }
        Concat(Pick(cells, Flatten(init))) + Concat(Pick(cells, last));
        { ConcatAppend(Pick(cells, Flatten(init)), Pick(cells, last)); }
        Concat(Pick(cells, Flatten(init)) + Pick(cells, last));
        { PickAppend(cells, Flatten(init), last); }
        Concat(Pick(cells, Flatten(init) + last));
      }
    }
  }

  /** What each row of indices shows, one string per row. */
  function Bodies(cells: seq<string>, rows: seq<seq<nat>>): seq<string> {
    seq(|rows|, i requires 0 <= i < |rows| => Concat(Pick(cells, rows[i])))
  }

  lemma PickAppend(cells: seq<string>, a: seq<nat>, b: seq<nat>)
    ensures Pick(cells, a + b) == Pick(cells, a) + Pick(cells, b)
  {
  }

  /** Every printed row starts with the gutter, and what follows the gutters,
      read row after row, is every package's cell exactly once and in the
      order of the list. */
  lemma GridShowsEachPackageOnce(term: Terminal, gutter: string, maxChars: int, columns: int,
                                 pkgs: seq<string>, colors: seq<string>)
    requires columns > 0 && |colors| == |pkgs|
    ensures var g := Grid(term, gutter, maxChars, columns, pkgs, colors);
      && |g| == CeilDiv(|pkgs|, columns)
      && (forall i | 0 <= i < |g| :: |gutter| <= |g[i]| && g[i][..|gutter|] == gutter)
      && Concat(seq(|g|, i requires 0 <= i < |g| => g[i][|gutter|..]))
         == Concat(Cells(term, maxChars, pkgs, colors))
  {
    var g := Grid(term, gutter, maxChars, columns, pkgs, colors);
    var cells := Cells(term, maxChars, pkgs, colors);
    var rows := Layout(|pkgs|, columns);
    var bodies := seq(|g|, i requires 0 <= i < |g| => g[i][|gutter|..]);
    assert bodies == Bodies(cells, rows);
    ConcatPicks(cells, rows);
    LayoutInOrder(|pkgs|, columns);
    assert Pick(cells, seq(|pkgs|, k => k)) == cells;
  }

  lemma AppendAssoc(a: string, b: string, c: string)
    ensures (a + b) + c == a + (b + c)
  {
  }

  lemma PickStep(cells: seq<string>, row: seq<nat>, j: nat)
    requires j < |row| && row[j] < |cells|
    ensures Pick(cells, row[..j + 1]) == Pick(cells, row[..j]) + [cells[row[j]]]
  {
  }

  /** One pass of the outer loop of `print_packages`: the gutter followed by
      the cells of row `i`, stopping at the end of the list. */
  method FormatRow(term: Terminal, gutter: string, pkgs: seq<string>, color: seq<string>,
                   maxChars: int, columns: nat, i: nat)
    returns (s: string)
    requires |color| == |pkgs| && columns > 0 && i < RowCount(|pkgs|, columns)
    ensures s == gutter + Concat(Pick(Cells(term, maxChars, pkgs, color), Layout(|pkgs|, columns)[i]))
  {
    ghost var cells := Cells(term, maxChars, pkgs, color);
    ghost var row := Layout(|pkgs|, columns)[i];
    s := gutter;
    var j := 0;
    while j < columns
      invariant 0 <= j <= RowLength(|pkgs|, columns, i)
      invariant s == gutter + Concat(Pick(cells, row[..j]))
    {
      var idx := j + columns * i;
      if idx >= |pkgs| {
        break;
      }
      var pkg := pkgs[idx];
      if |pkg| > maxChars - 1 {
        pkg := PrefixSlice(pkg, maxChars - 2) + "+ ";
      }
      var cell := color[idx] + pkg + term.normal + Repeat(' ', maxChars - |pkg|);
      assert s + cell == gutter + Concat(Pick(cells, row[..j + 1])) by {
        assert row[j] == idx && cell == cells[idx];
        PickStep(cells, row, j);
        ConcatAppend(Pick(cells, row[..j]), [cell]);
        AppendAssoc(gutter, Concat(Pick(cells, row[..j])), cell);
      }
      s := s + cell;
      j := j + 1;
    }
    assert row[..j] == row;
  }

  /** `print_packages`: the rows it prints, or the division by zero it raises. */
  method PrintPackages(term: Terminal, gutter: string, width: int, pkgs: seq<string>,
                       red: set<string>, green: set<string>, maxChars: int)
    returns (out: Outcome)
    ensures maxChars == 0 ==> out == ZeroDivisionError
    ensures maxChars != 0 ==>
      var columns := FloorDiv(width - 2 * |gutter|, maxChars);
      if columns == 0 then out == ZeroDivisionError
      else out == Rows(Grid(term, gutter, maxChars, columns, pkgs, Colors(term, pkgs, red, green)))
  {
    var color := ColorCodes(term, pkgs, red, green);
    if maxChars == 0 {
      return ZeroDivisionError;
    }
    var columns := FloorDiv(width - 2 * |gutter|, maxChars);
    if columns == 0 {
      return ZeroDivisionError;
    }
    var rows := CeilDiv(|pkgs|, columns);
    ghost var grid := Grid(term, gutter, maxChars, columns, pkgs, color);
    var lines: seq<string> := [];
    var i := 0;
    while i < rows
      invariant 0 <= i && (rows <= 0 ==> i == 0)
      invariant rows > 0 ==> columns > 0 && i <= rows && |grid| == rows
      invariant lines == grid[..i]
    {
      var s := FormatRow(term, gutter, pkgs, color, maxChars, columns, i);
      PrefixStep(grid, i);
      lines := lines + [s];
      i := i + 1;
    }
    if rows > 0 {
      assert lines == grid;
    } else {
      assert grid == [];
    }
    return Rows(lines);
  }
}
