/**
 * The fixed-width Markdown tables of the report: the three type tables, laid
 * out two entries per row, and the table of top blogs with its list of link
 * references. Cells are centred by wrapping them in spaces, or left-aligned by
 * appending spaces, up to the widths of the `fmt_width_*` settings.
 */
module Layout {
  import opened Text
  import opened Records
  import opened Aggregator
  import opened Statistics

  /** The `fmt_width_idx`, `_cnt`, `_name`, `_type`, `_author` and `_title` settings. */
  datatype Widths = Widths(idx: nat, cnt: nat, name: nat, kind: nat, author: nat, title: nat)

  /** The three type tables, `type_freq`, `type_pay_total` and `type_pay_avg`. */
  datatype Table = FreqTable | TotalTable | AvgTable

  // ---------------------------------------------------------------------------
  // Centre padding

  /**
   * What the centring loop leaves: while shorter than `w`, wrap in one space
   * on each side; then drop the first character if that overshot the width.
   */
  function Centered(s: string, w: nat): string
    decreases w - |s|
  {
    if |s| < w then Centered(" " + s + " ", w)
    else if |s| > w then s[1..]
    else s
  }

  /** The centring loop. */
  method Center(s: string, w: nat) returns (r: string)
    ensures r == Centered(s, w)
  {
    r := s;
    while |r| < w
      invariant Centered(r, w) == Centered(s, w)
      decreases w - |r|
    {
      r := " " + r + " ";
    }
    if |r| > w {
      r := r[1..];
    }
  }

  /**
   * A string of at most `w` characters gets half the missing width in spaces
   * on its left and the other, possibly one larger, half on its right; a
   * longer one loses its first character.
   */
  lemma {:induction false} CenteredShape(s: string, w: nat)
    ensures |s| <= w ==> Centered(s, w) == Spaces((w - |s|) / 2) + s + Spaces(w - |s| - (w - |s|) / 2)
    ensures |s| > w ==> Centered(s, w) == s[1..]
    decreases w - |s|
  {
    if |s| < w {
      var t := " " + s + " ";
      CenteredShape(t, w);
      var d := w - |s|;
      if |s| + 1 == w {
        assert Centered(t, w) == t[1..];
        assert t[1..] == s + " ";
        assert Spaces(0) + s + Spaces(1) == s + " ";
      } else {
        assert Centered(t, w) == Spaces((d - 2) / 2) + t + Spaces(d - 2 - (d - 2) / 2);
        WrapSpaces(s, d);
      }
    } else if |s| == w {
      assert Spaces(0) + s + Spaces(0) == s;
    }
  }

  /** One more space on each side of `s`, inside a centring of width `|s| + d`. */
  lemma WrapSpaces(s: string, d: nat)
    requires d >= 2
    ensures Spaces((d - 2) / 2) + (" " + s + " ") + Spaces(d - 2 - (d - 2) / 2)
            == Spaces(d / 2) + s + Spaces(d - d / 2)
  {
    var a := (d - 2) / 2;
    var b := d - 2 - a;
    assert a + 1 == d / 2 && 1 + b == d - d / 2;
    SpacesAdd(a, 1);
    SpacesAdd(1, b);
    assert Spaces(1) == " ";
    assert Spaces(a) + (" " + s + " ") + Spaces(b) == (Spaces(a) + Spaces(1)) + s + (Spaces(1) + Spaces(b));
  }

  /** A string that fits is centred: it sits at offset `(w - |s|) / 2` between spaces. */
  lemma CenteredFits(s: string, w: nat)
    requires |s| <= w
    ensures var r, left := Centered(s, w), (w - |s|) / 2;
            && |r| == w
            && r[left..left + |s|] == s
            && (forall i :: 0 <= i < left ==> r[i] == ' ')
            && (forall i :: left + |s| <= i < w ==> r[i] == ' ')
  {
    CenteredShape(s, w);
    var left := (w - |s|) / 2;
    var r := Centered(s, w);
    assert r == Spaces(left) + s + Spaces(w - |s| - left);
    assert r[left..left + |s|] == s;
  }

  /** Centring what is already centred changes nothing. */
  lemma CenteredIdempotent(s: string, w: nat)
    requires |s| <= w
    ensures Centered(Centered(s, w), w) == Centered(s, w)
  {
    CenteredFits(s, w);
  }

  /** `trim` undoes the centring of a word that fits. */
  lemma CenteredTrim(d: string, w: nat)
    requires d != [] && d[0] != ' ' && d[|d| - 1] != ' '
    requires |d| <= w
    ensures Trim(Centered(d, w)) == d
  {
    CenteredShape(d, w);
    TrimPadded((w - |d|) / 2, d, w - |d| - (w - |d|) / 2);
  }

  /** Centring adds only spaces and never brings in a character `c`. */
  lemma CenteredFree(s: string, w: nat, c: char)
    requires c !in s && c != ' '
    ensures c !in Centered(s, w)
  {
    if |s| <= w {
      CenteredFits(s, w);
      var r, left := Centered(s, w), (w - |s|) / 2;
      forall i | 0 <= i < w
        ensures r[i] != c
      {
        if left <= i < left + |s| {
          assert r[i] == r[left..left + |s|][i - left];
        }
      }
    } else {
      CenteredShape(s, w);
      assert forall i :: 0 <= i < |s| - 1 ==> s[1..][i] == s[i + 1];
    }
  }

  // ---------------------------------------------------------------------------
  // Left alignment

  /** What the right-padding loop leaves: while shorter than `w`, append a space. */
  function PaddedRight(s: string, w: nat): string
    decreases w - |s|
  {
    if |s| < w then PaddedRight(s + " ", w) else s
  }

  /** The right-padding loop. */
  method PadRight(s: string, w: nat) returns (r: string)
    ensures r == PaddedRight(s, w)
  {
    r := s;
    while |r| < w
      invariant PaddedRight(r, w) == PaddedRight(s, w)
      decreases w - |r|
    {
      r := r + " ";
    }
  }

  /** Right padding keeps the text in front and adds spaces up to width `w`. */
  lemma {:induction false} PaddedRightSpaces(s: string, w: nat)
    ensures PaddedRight(s, w) == s + Spaces(if |s| < w then w - |s| else 0)
    decreases w - |s|
  {
    if |s| < w {
      PaddedRightSpaces(s + " ", w);
      SpacesAdd(1, w - |s| - 1);
      assert s + " " + Spaces(w - |s| - 1) == s + (Spaces(1) + Spaces(w - |s| - 1));
    } else {
      assert s + Spaces(0) == s;
    }
  }

  /** The padded text has length `max(|s|, w)`: `s`, then nothing but spaces. */
  lemma PaddedRightShape(s: string, w: nat)
    ensures var r := PaddedRight(s, w);
            && |r| == (if |s| < w then w else |s|)
            && r[..|s|] == s
            && (forall i :: |s| <= i < |r| ==> r[i] == ' ')
  {
    PaddedRightSpaces(s, w);
  }

  /** Dropping the trailing spaces undoes the padding of a text not ending in a space. */
  lemma PaddedRightTrim(s: string, w: nat)
    requires s == [] || s[|s| - 1] != ' '
    ensures DropTrailingSpaces(PaddedRight(s, w)) == s
  {
    PaddedRightSpaces(s, w);
    DropTrailingPadded(s, if |s| < w then w - |s| else 0);
  }

  lemma PaddedRightFree(s: string, w: nat, c: char)
    requires c !in s && c != ' '
    ensures c !in PaddedRight(s, w)
  {
    PaddedRightShape(s, w);
    var r := PaddedRight(s, w);
    forall i | 0 <= i < |r|
      ensures r[i] != c
    {
      if i < |s| {
        assert r[i] == r[..|s|][i];
      }
    }
  }

  /**
   * The type-name column: one space, then the name, then spaces; the width is
   * `max(|name| + 1, w)`.
   */
  lemma LeftAlignedShape(name: string, w: nat)
    ensures var r := PaddedRight(" " + name, w);
            && |r| == (if |name| + 1 < w then w else |name| + 1)
            && r[..|name| + 1] == " " + name
            && (forall i :: |name| + 1 <= i < |r| ==> r[i] == ' ')
  {
    PaddedRightShape(" " + name, w);
  }

  // ---------------------------------------------------------------------------
  // Index cells and link markers

  /** The centred 1-based index of entry `i`. */
  function IndexCell(i: nat, w: nat): string
  {
    Centered(Decimal(i + 1), w)
  }

  /** `idx.trim()`: the label of a blog's link reference. */
  function Marker(i: nat, w: nat): string
  {
    Trim(IndexCell(i, w))
  }

  /** When the digits fit the width, the marker is the 1-based index in decimal. */
  lemma MarkerIsIndex(i: nat, w: nat)
    requires |Decimal(i + 1)| <= w
    ensures Marker(i, w) == Decimal(i + 1)
  {
    CenteredTrim(Decimal(i + 1), w);
  }

  /** When they do not, the marker loses the leading digit. */
  lemma MarkerNarrow(i: nat, w: nat)
    requires |Decimal(i + 1)| > w
    ensures Marker(i, w) == Decimal(i + 1)[1..]
  {
    var s := Decimal(i + 1);
    var d := s[1..];
    assert IndexCell(i, w) == d;
    if d != [] {
      assert d[0] == s[1] && d[|d| - 1] == s[|s| - 1];
    }
    assert DropLeadingSpaces(d) == d;
    assert DropTrailingSpaces(d) == d;
  }

  /** With a one-character index column, the tenth and twentieth blogs share the marker `0`. */
  lemma MarkersCollideWhenNarrow()
    ensures Marker(9, 1) == Marker(19, 1) == "0"
  {
    assert Decimal(10) == "10";
    assert Decimal(20) == "20";
    MarkerNarrow(9, 1);
    MarkerNarrow(19, 1);
  }

  /** Every blog of a table whose last index fits the width has its own marker. */
  lemma MarkersDistinct(i: nat, j: nat, n: nat, w: nat)
    requires i < n && j < n && i != j
    requires |Decimal(n)| <= w
    ensures Marker(i, w) != Marker(j, w)
  {
    MarkerBelow(i, n, w);
    MarkerBelow(j, n, w);
    DecimalDistinct(i + 1, j + 1);
  }

  /** Every blog of a table whose last index fits the width has its index as its marker. */
  lemma MarkerBelow(i: nat, n: nat, w: nat)
    requires i < n && |Decimal(n)| <= w
    ensures Marker(i, w) == Decimal(i + 1)
  {
    DecimalLengthMonotone(i + 1, n);
    MarkerIsIndex(i, w);
  }

  lemma IndexCellBarFree(i: nat, w: nat)
    ensures '|' !in IndexCell(i, w)
  {
    var d := Decimal(i + 1);
    assert '|' !in d;
    CenteredFree(d, w, '|');
  }

  // ---------------------------------------------------------------------------
  // The type tables

  /**
   * The value column of a type table: counts as they are; for the payout
   * tables a non-empty value is read back with `parse`, scaled down by 10000
   * for averages, and shown as `$` and `money` of the amount (`money` stands
   * for the rounding to `decimal` and the number-to-string conversion).
   */
  function ValueText(table: Table, v: string, parse: string -> real, money: real -> string): (text: string)
    ensures table == FreqTable || v == "" ==> text == v
    ensures table != FreqTable && v != "" ==> |text| > 0 && text[0] == '$'
  {
    if table != FreqTable && v != "" then
      "$" + money(if table == AvgTable then parse(v) / 10000.0 else parse(v))
    else v
  }

  /** One entry of a type table: index, value and name, each followed by `|`. */
  function TypeCell(i: nat, e: Entry, table: Table, wd: Widths, parse: string -> real, money: real -> string): string
  {
    IndexCell(i, wd.idx) + "|" + Centered(ValueText(table, e.value, parse, money), wd.cnt) + "|"
      + PaddedRight(" " + e.kind, wd.name) + "|"
  }

  /** The body of the per-entry callback of a type table. */
  method FormatTypeCell(i: nat, e: Entry, table: Table, wd: Widths, parse: string -> real, money: real -> string)
    returns (cell: string)
    ensures cell == TypeCell(i, e, table, wd, parse, money)
  {
    var idx := Center(Decimal(i + 1), wd.idx);
    var value := e.value;
    if table != FreqTable && value != "" {
      var amount := parse(value);
      if table == AvgTable {
        amount := amount / 10000.0;
      }
      value := "$" + money(amount);
    }
    value := Center(value, wd.cnt);
    var name := PadRight(" " + e.kind, wd.name);
    cell := idx + "|" + value + "|" + name + "|";
  }

  /** The cells of a list of entries, entry `i` numbered `i + 1` and drawn by `cell`. */
  function CellsOf(entries: seq<Entry>, cell: (nat, Entry) -> string): (cells: seq<string>)
    ensures |cells| == |entries|
  {
    if entries == [] then []
    else CellsOf(entries[..|entries| - 1], cell) + [cell(|entries| - 1, entries[|entries| - 1])]
  }

  lemma {:induction false} CellsOfAt(entries: seq<Entry>, cell: (nat, Entry) -> string, i: nat)
    requires i < |entries|
    ensures CellsOf(entries, cell)[i] == cell(i, entries[i])
  {
    if i < |entries| - 1 {
      var init := entries[..|entries| - 1];
      CellsOfAt(init, cell, i);
    }
  }

  /** The cell function of one type table. */
  function TypeCellOf(table: Table, wd: Widths, parse: string -> real, money: real -> string): (nat, Entry) -> string
  {
    (i: nat, e: Entry) => TypeCell(i, e, table, wd, parse, money)
  }

  function TypeCells(entries: seq<Entry>, table: Table, wd: Widths, parse: string -> real, money: real -> string)
    : (cells: seq<string>)
    ensures |cells| == |entries|
  {
    CellsOf(entries, TypeCellOf(table, wd, parse, money))
  }

  lemma TypeCellsAt(entries: seq<Entry>, table: Table, wd: Widths, parse: string -> real, money: real -> string, i: nat)
    requires i < |entries|
    ensures TypeCells(entries, table, wd, parse, money)[i] == TypeCell(i, entries[i], table, wd, parse, money)
  {
    CellsOfAt(entries, TypeCellOf(table, wd, parse, money), i);
  }

  /** Cells laid out two per row: row `j` holds cell `j` and, when there is one, cell `j + half`. */
  function Rows(cells: seq<string>, half: nat): (rows: seq<string>)
    requires half <= |cells|
    ensures |rows| == half
  {
    seq(half, j requires 0 <= j < half => "   |" + cells[j] + (if j + half < |cells| then cells[j + half] else ""))
  }

  /** Row `j` once the first `i` cells are placed. */
  function PartialRow(cells: seq<string>, half: nat, j: nat, i: nat): string
    requires j < |cells|
  {
    "   |" + cells[j] + (if j + half < i && j + half < |cells| then cells[j + half] else "")
  }

  /**
   * The `forEach` over a type list: entries before `half` start a row,
   * later ones are appended to row `i - half`.
   */
  method FormatTypeTable(entries: seq<Entry>, half: nat, table: Table, wd: Widths,
                         parse: string -> real, money: real -> string) returns (rows: seq<string>)
    requires half == (|entries| + 1) / 2
    ensures rows == Rows(TypeCells(entries, table, wd, parse, money), half)
  {
    ghost var cells := TypeCells(entries, table, wd, parse, money);
    rows := [];
    for i := 0 to |entries|
      invariant Placed(rows, cells, half, i)
    {
      var cell := FormatTypeCell(i, entries[i], table, wd, parse, money);
      TypeCellsAt(entries, table, wd, parse, money, i);
      PlaceCell(cells, half, rows, i);
      if i < half {
        rows := rows + ["   |" + cell];
      } else {
        rows := rows[i - half := rows[i - half] + cell];
      }
    }
    PartialRowsComplete(cells, half, rows);
  }

  /** The rows once the first `i` cells are placed: one per cell so far, at most `half`. */
  ghost predicate Placed(rows: seq<string>, cells: seq<string>, half: nat, i: nat)
  {
    && |rows| == (if i < half then i else half)
    && |rows| <= |cells|
    && forall j :: 0 <= j < |rows| ==> rows[j] == PartialRow(cells, half, j, i)
  }

  /**
   * Placing cell `i` starts row `i` while `i < half`, and otherwise extends
   * row `i - half`; no other row changes.
   */
  lemma PlaceCell(cells: seq<string>, half: nat, rows: seq<string>, i: nat)
    requires half == (|cells| + 1) / 2 && i < |cells|
    requires Placed(rows, cells, half, i)
    ensures i < half ==> Placed(rows + ["   |" + cells[i]], cells, half, i + 1)
    ensures i >= half ==> Placed(rows[i - half := rows[i - half] + cells[i]], cells, half, i + 1)
  {
    if i < half {
      var rows' := rows + ["   |" + cells[i]];
      forall j | 0 <= j < |rows'|
        ensures rows'[j] == PartialRow(cells, half, j, i + 1)
      {
        if j < i {
          assert j + half >= i + 1 || j + half < i;
        } else {
          assert "   |" + cells[i] + "" == "   |" + cells[i];
        }
      }
    } else {
      var rows' := rows[i - half := rows[i - half] + cells[i]];
      forall j | 0 <= j < |rows'|
        ensures rows'[j] == PartialRow(cells, half, j, i + 1)
      {
        if j != i - half {
          assert rows'[j] == rows[j];
        }
      }
    }
  }

  /** Once every cell is placed, the partial rows are the table's rows. */
  lemma PartialRowsComplete(cells: seq<string>, half: nat, rows: seq<string>)
    requires half <= |cells|
    requires Placed(rows, cells, half, |cells|)
    ensures rows == Rows(cells, half)
  {
  }

  /** `unshift(['', ''])` on an odd-length list. */
  function Evened(list: seq<Entry>): seq<Entry>
  {
    if |list| % 2 == 1 then [BLANK] + list else list
  }

  /** A type table: the list evened out, reversed, and laid out in `ceil(total / 2)` rows. */
  function TypeTable(list: seq<Entry>, table: Table, wd: Widths, parse: string -> real, money: real -> string)
    : (rows: seq<string>)
    ensures |rows| == (|list| + 1) / 2
  {
    var padded := Evened(list);
    EvenedShape(list);
    var entries := Reversed(padded);
    ReversedLength(padded);
    assert (|entries| + 1) / 2 == (|list| + 1) / 2;
    Rows(TypeCells(entries, table, wd, parse, money), (|entries| + 1) / 2)
  }

  /** The rows of the evened, reversed list are the type table. */
  lemma TypeTableIs(list: seq<Entry>, entries: seq<Entry>, half: nat, table: Table, wd: Widths,
                    parse: string -> real, money: real -> string)
    requires entries == Reversed(Evened(list))
    requires half == (|Evened(list)| + 1) / 2
    ensures half <= |entries|
    ensures Rows(TypeCells(entries, table, wd, parse, money), half) == TypeTable(list, table, wd, parse, money)
  {
    ReversedLength(Evened(list));
    var cells := TypeCells(entries, table, wd, parse, money);
    assert half == (|entries| + 1) / 2;
    assert TypeTable(list, table, wd, parse, money) == Rows(cells, half);
  }

  /** Evening out gives an even length and keeps the list behind the placeholder. */
  lemma EvenedShape(list: seq<Entry>)
    ensures |Evened(list)| == 2 * ((|list| + 1) / 2)
    ensures |list| % 2 == 1 ==> Evened(list)[0] == BLANK && Evened(list)[1..] == list
    ensures |list| % 2 == 0 ==> Evened(list) == list
  {
  }

  /**
   * Laying out an evened and reversed list: row `j` holds, as entries `j + 1`
   * and `j + half + 1`, the `j`-th and the `(j + half)`-th entries from the
   * end of the evened list, where `half` is the number of rows.
   */
  lemma EvenedRow(list: seq<Entry>, cell: (nat, Entry) -> string, j: nat)
    requires j < (|list| + 1) / 2
    ensures var padded, half := Evened(list), (|list| + 1) / 2;
            && |padded| == 2 * half
            && |Reversed(padded)| == |padded|
            && Rows(CellsOf(Reversed(padded), cell), half)[j]
                 == "   |" + cell(j, padded[2 * half - 1 - j]) + cell(j + half, padded[half - 1 - j])
  {
    var padded, half := Evened(list), (|list| + 1) / 2;
    EvenedShape(list);
    var entries := Reversed(padded);
    ReversedAt(padded, j);
    ReversedAt(padded, j + half);
    var cells := CellsOf(entries, cell);
    CellsOfAt(entries, cell, j);
    CellsOfAt(entries, cell, j + half);
    assert j + half < |cells|;
    assert Rows(cells, half)[j] == "   |" + cells[j] + cells[j + half];
    assert cells[j] == cell(j, padded[2 * half - 1 - j]);
    assert cells[j + half] == cell(j + half, padded[half - 1 - j]);
  }

  /**
   * Row `j` of a type table holds, as entries `j + 1` and `j + half + 1`, the
   * `j`-th and the `(j + half)`-th entries from the end of the evened list,
   * where `half` is the number of rows, `ceil(total / 2)`.
   */
  lemma TypeTableRow(list: seq<Entry>, table: Table, wd: Widths, parse: string -> real, money: real -> string, j: nat)
    requires j < (|list| + 1) / 2
    ensures var padded, half := Evened(list), (|list| + 1) / 2;
            && |padded| == 2 * half
            && TypeTable(list, table, wd, parse, money)[j]
                 == "   |" + TypeCell(j, padded[2 * half - 1 - j], table, wd, parse, money)
                      + TypeCell(j + half, padded[half - 1 - j], table, wd, parse, money)
  {
    EvenedRow(list, TypeCellOf(table, wd, parse, money), j);
  }

  /** On an odd list the placeholder ends up as the second entry of the last row. */
  lemma PlaceholderLast(list: seq<Entry>, table: Table, wd: Widths, parse: string -> real, money: real -> string)
    requires |list| % 2 == 1
    ensures var rows, half := TypeTable(list, table, wd, parse, money), (|list| + 1) / 2;
            rows[half - 1] == "   |" + TypeCell(half - 1, list[half - 1], table, wd, parse, money)
                                + TypeCell(2 * half - 1, BLANK, table, wd, parse, money)
  {
    var half := (|list| + 1) / 2;
    var padded := Evened(list);
    EvenedShape(list);
    TypeTableRow(list, table, wd, parse, money, half - 1);
    assert 2 * half - 1 - (half - 1) == half && half - 1 - (half - 1) == 0;
    assert padded[half] == padded[1..][half - 1] == list[half - 1];
    assert padded[0] == BLANK;
  }

  /** A type cell holds exactly three bars when neither its value nor its name holds one. */
  lemma TypeCellBars(i: nat, e: Entry, table: Table, wd: Widths, parse: string -> real, money: real -> string)
    requires '|' !in ValueText(table, e.value, parse, money) && '|' !in e.kind
    ensures CountChar(TypeCell(i, e, table, wd, parse, money), '|') == 3
  {
    var idx := IndexCell(i, wd.idx);
    var value := Centered(ValueText(table, e.value, parse, money), wd.cnt);
    var name := PaddedRight(" " + e.kind, wd.name);
    IndexCellBarFree(i, wd.idx);
    CenteredFree(ValueText(table, e.value, parse, money), wd.cnt, '|');
    assert '|' !in " " + e.kind;
    PaddedRightFree(" " + e.kind, wd.name, '|');
    CountCharAbsent(idx, '|');
    CountCharAbsent(value, '|');
    CountCharAbsent(name, '|');
    CountCharAppend(idx, "|", '|');
    CountCharAppend(idx + "|", value, '|');
    CountCharAppend(idx + "|" + value, "|", '|');
    CountCharAppend(idx + "|" + value + "|", name, '|');
    CountCharAppend(idx + "|" + value + "|" + name, "|", '|');
  }

  /**
   * Every row of a type table has the seven bars of a two-entry Markdown row,
   * as long as no type name, count or rendered amount holds a bar.
   */
  lemma TypeRowBars(list: seq<Entry>, table: Table, wd: Widths, parse: string -> real, money: real -> string, j: nat)
    requires forall k :: 0 <= k < |list| ==> '|' !in list[k].kind && '|' !in list[k].value
    requires forall x :: '|' !in money(x)
    requires j < (|list| + 1) / 2
    ensures CountChar(TypeTable(list, table, wd, parse, money)[j], '|') == 7
  {
    var half := (|list| + 1) / 2;
    var cells := TypeCells(Reversed(Evened(list)), table, wd, parse, money);
    TypeRowIs(list, table, wd, parse, money, j);
    CellBars(list, table, wd, parse, money, j);
    CellBars(list, table, wd, parse, money, j + half);
    assert CountChar("   |", '|') == 1;
    CountCharAppend("   |", cells[j], '|');
    CountCharAppend("   |" + cells[j], cells[j + half], '|');
  }

  /** Row `j` of a type table holds cell `j` and cell `j + half` of the evened, reversed list. */
  lemma TypeRowIs(list: seq<Entry>, table: Table, wd: Widths, parse: string -> real, money: real -> string, j: nat)
    requires j < (|list| + 1) / 2
    ensures |Reversed(Evened(list))| == 2 * ((|list| + 1) / 2)
    ensures var cells := TypeCells(Reversed(Evened(list)), table, wd, parse, money);
            TypeTable(list, table, wd, parse, money)[j] == "   |" + cells[j] + cells[j + (|list| + 1) / 2]
  {
    var padded, half := Evened(list), (|list| + 1) / 2;
    EvenedShape(list);
    ReversedLength(padded);
  }

  /** Each cell of a type table whose names, counts and amounts are bar-free has three bars. */
  lemma CellBars(list: seq<Entry>, table: Table, wd: Widths, parse: string -> real, money: real -> string, k: nat)
    requires forall k :: 0 <= k < |list| ==> '|' !in list[k].kind && '|' !in list[k].value
    requires forall x :: '|' !in money(x)
    requires k < |Evened(list)|
    ensures |Reversed(Evened(list))| == |Evened(list)|
    ensures CountChar(TypeCells(Reversed(Evened(list)), table, wd, parse, money)[k], '|') == 3
  {
    var padded := Evened(list);
    var entries := Reversed(padded);
    ReversedAt(padded, k);
    EvenedBarFree(list, |padded| - 1 - k);
    ValueTextBarFree(table, entries[k].value, parse, money);
    TypeCellsAt(entries, table, wd, parse, money, k);
    TypeCellBars(k, entries[k], table, wd, parse, money);
  }

  lemma EvenedBarFree(list: seq<Entry>, k: nat)
    requires forall k :: 0 <= k < |list| ==> '|' !in list[k].kind && '|' !in list[k].value
    requires k < |Evened(list)|
    ensures '|' !in Evened(list)[k].kind && '|' !in Evened(list)[k].value
  {
    if |list| % 2 == 1 && k > 0 {
      assert Evened(list)[k] == list[k - 1];
    }
  }

  lemma ValueTextBarFree(table: Table, v: string, parse: string -> real, money: real -> string)
    requires '|' !in v
    requires forall x :: '|' !in money(x)
    ensures '|' !in ValueText(table, v, parse, money)
  {
    if table != FreqTable && v != "" {
      var x := if table == AvgTable then parse(v) / 10000.0 else parse(v);
      assert '|' !in money(x);
      assert '|' !in "$" + money(x);
    }
  }

  // ---------------------------------------------------------------------------
  // The blog table

  /** One row of the blog table; the title's bars are escaped and its link label is the marker. */
  function BlogRow(i: nat, b: Post, wd: Widths, parse: string -> real, money: real -> string): (row: string)
    ensures StartsWith(row, "   |" + IndexCell(i, wd.idx) + "|")
  {
    var idx := IndexCell(i, wd.idx);
    var row := "   |" + idx + "|" + Centered("$" + money(Amount(b, parse)), wd.cnt) + "|"
      + PaddedRight(b.kind, wd.kind) + "|" + PaddedRight(b.author, wd.author)
      + "|[" + PaddedRight(EscapeBars(b.title), wd.title) + "][" + Trim(idx) + "]|";
    PrefixKept("   |" + idx + "|", row);
    row
  }

  /** A string that extends `head` starts with it. */
  lemma PrefixKept(head: string, s: string)
    requires |head| <= |s| && forall k :: 0 <= k < |head| ==> s[k] == head[k]
    ensures StartsWith(s, head)
  {
  }

  /** The link reference the row's marker points at: the post's path on steemit.com. */
  function UrlLine(i: nat, b: Post, wd: Widths): (line: string)
    ensures EndsWith(line, b.url)
  {
    SuffixKept("[" + Marker(i, wd.idx) + "]: https://steemit.com", b.url);
    "[" + Marker(i, wd.idx) + "]: https://steemit.com" + b.url
  }

  /** A string ends with what is appended to it. */
  lemma SuffixKept(head: string, t: string)
    ensures EndsWith(head + t, t)
  {
    assert (head + t)[|head|..] == t;
  }

  /** The body of the per-blog callback. */
  method FormatBlogRow(i: nat, b: Post, wd: Widths, parse: string -> real, money: real -> string)
    returns (row: string, url: string)
    ensures row == BlogRow(i, b, wd, parse, money)
    ensures url == UrlLine(i, b, wd)
  {
    var idx := Center(Decimal(i + 1), wd.idx);
    var pay := Center("$" + money(Amount(b, parse)), wd.cnt);
    var kind := PadRight(b.kind, wd.kind);
    var author := PadRight(b.author, wd.author);
    var title := PadRight(EscapeBars(b.title), wd.title);
    row := "   |" + idx + "|" + pay + "|" + kind + "|" + author + "|[" + title + "][" + Trim(idx) + "]|";
    url := "[" + Trim(idx) + "]: https://steemit.com" + b.url;
  }

  /** The `forEach` over the (already reversed) blogs: one row and one link line each. */
  method FormatBlogTable(blogs: seq<Post>, wd: Widths, parse: string -> real, money: real -> string)
    returns (rows: seq<string>, urls: seq<string>)
    ensures |rows| == |urls| == |blogs|
    ensures forall i :: 0 <= i < |blogs| ==>
              rows[i] == BlogRow(i, blogs[i], wd, parse, money) && urls[i] == UrlLine(i, blogs[i], wd)
  {
    rows, urls := [], [];
    for i := 0 to |blogs|
      invariant rows == seq(i, k requires 0 <= k < i => BlogRow(k, blogs[k], wd, parse, money))
      invariant urls == seq(i, k requires 0 <= k < i => UrlLine(k, blogs[k], wd))
    {
      var row, url := FormatBlogRow(i, blogs[i], wd, parse, money);
      rows := rows + [row];
      urls := urls + [url];
    }
  }

  /**
   * A blog row has the six bars of its Markdown row and no more: the title's
   * own bars are escaped, provided type, author and amount hold none.
   */
  lemma BlogRowBars(i: nat, b: Post, wd: Widths, parse: string -> real, money: real -> string)
    requires '|' !in b.kind && '|' !in b.author && '|' !in money(Amount(b, parse))
    ensures CountChar(BlogRow(i, b, wd, parse, money), '|') == 6
  {
    var idx := IndexCell(i, wd.idx);
    var pay := Centered("$" + money(Amount(b, parse)), wd.cnt);
    var kind := PaddedRight(b.kind, wd.kind);
    var author := PaddedRight(b.author, wd.author);
    var title := PaddedRight(EscapeBars(b.title), wd.title);
    IndexCellBarFree(i, wd.idx);
    assert '|' !in "$" + money(Amount(b, parse));
    CenteredFree("$" + money(Amount(b, parse)), wd.cnt, '|');
    PaddedRightFree(b.kind, wd.kind, '|');
    PaddedRightFree(b.author, wd.author, '|');
    PaddedRightFree(EscapeBars(b.title), wd.title, '|');
    var marker := Trim(idx);
    MarkerBarFree(idx);
    var s0 := "   |";
    var s1 := s0 + idx;
    var s2 := s1 + "|";
    var s3 := s2 + pay;
    var s4 := s3 + "|";
    var s5 := s4 + kind;
    var s6 := s5 + "|";
    var s7 := s6 + author;
    var s8 := s7 + "|[";
    var s9 := s8 + title;
    var s10 := s9 + "][";
    var s11 := s10 + marker;
    var s12 := s11 + "]|";
    assert s12 == BlogRow(i, b, wd, parse, money);
    assert CountChar(s0, '|') == 1;
    AppendFree(s0, idx, 1);
    AppendBars(s1, "|", 1, 1);
    AppendFree(s2, pay, 2);
    AppendBars(s3, "|", 2, 1);
    AppendFree(s4, kind, 3);
    AppendBars(s5, "|", 3, 1);
    AppendFree(s6, author, 4);
    AppendBars(s7, "|[", 4, 1);
    AppendFree(s8, title, 5);
    AppendFree(s9, "][", 5);
    AppendFree(s10, marker, 5);
    AppendBars(s11, "]|", 5, 1);
  }

  lemma AppendFree(s: string, x: string, n: nat)
    requires CountChar(s, '|') == n && '|' !in x
    ensures CountChar(s + x, '|') == n
  {
    CountCharAbsent(x, '|');
    CountCharAppend(s, x, '|');
  }

  lemma AppendBars(s: string, x: string, n: nat, k: nat)
    requires CountChar(s, '|') == n && CountChar(x, '|') == k
    ensures CountChar(s + x, '|') == n + k
  {
    CountCharAppend(s, x, '|');
  }

  lemma {:induction false} DropLeadingSub(s: string)
    ensures |DropLeadingSpaces(s)| <= |s|
    ensures forall k :: 0 <= k < |DropLeadingSpaces(s)| ==> DropLeadingSpaces(s)[k] in s
  {
    if s != [] && s[0] == ' ' {
      DropLeadingSub(s[1..]);
    }
  }

  lemma {:induction false} DropTrailingSub(s: string)
    ensures |DropTrailingSpaces(s)| <= |s|
    ensures forall k :: 0 <= k < |DropTrailingSpaces(s)| ==> DropTrailingSpaces(s)[k] in s
  {
    if s != [] && s[|s| - 1] == ' ' {
      DropTrailingSub(s[..|s| - 1]);
    }
  }

  lemma MarkerBarFree(idx: string)
    requires '|' !in idx
    ensures '|' !in Trim(idx)
  {
    DropLeadingSub(idx);
    DropTrailingSub(DropLeadingSpaces(idx));
  }

  ghost predicate EndsWith(s: string, t: string)
  {
    |t| <= |s| && s[|s| - |t|..] == t
  }

  ghost predicate StartsWith(s: string, t: string)
  {
    |t| <= |s| && s[..|t|] == t
  }

  /**
   * The links resolve: when the last index of the table fits the index
   * width, row `i` ends with the link label `[i + 1]`, its link line starts
   * with the same label, and no other row has that label.
   */
  lemma BlogLinks(blogs: seq<Post>, wd: Widths, parse: string -> real, money: real -> string, i: nat)
    requires i < |blogs|
    requires |Decimal(|blogs|)| <= wd.idx
    ensures EndsWith(BlogRow(i, blogs[i], wd, parse, money), "[" + Decimal(i + 1) + "]|")
    ensures StartsWith(UrlLine(i, blogs[i], wd), "[" + Decimal(i + 1) + "]")
    ensures forall j :: 0 <= j < |blogs| && j != i ==> Marker(j, wd.idx) != Marker(i, wd.idx)
  {
    DecimalLengthMonotone(i + 1, |blogs|);
    MarkerIsIndex(i, wd.idx);
    RowLabel(i, blogs[i], wd, parse, money);
    forall j | 0 <= j < |blogs| && j != i
      ensures Marker(j, wd.idx) != Marker(i, wd.idx)
    {
      MarkersDistinct(j, i, |blogs|, wd.idx);
    }
  }

  /** A blog row ends with, and its link line starts with, the row's marker in brackets. */
  lemma RowLabel(i: nat, b: Post, wd: Widths, parse: string -> real, money: real -> string)
    ensures EndsWith(BlogRow(i, b, wd, parse, money), "[" + Marker(i, wd.idx) + "]|")
    ensures StartsWith(UrlLine(i, b, wd), "[" + Marker(i, wd.idx) + "]")
  {
    var m := Marker(i, wd.idx);
    var idx := IndexCell(i, wd.idx);
    var head := "   |" + idx + "|" + Centered("$" + money(Amount(b, parse)), wd.cnt) + "|"
      + PaddedRight(b.kind, wd.kind) + "|" + PaddedRight(b.author, wd.author)
      + "|[" + PaddedRight(EscapeBars(b.title), wd.title);
    assert BlogRow(i, b, wd, parse, money) == head + "][" + m + "]|";
    LabelEnds(head, m);
    LabelStarts(m, b.url);
  }

  lemma LabelEnds(head: string, m: string)
    ensures EndsWith(head + "][" + m + "]|", "[" + m + "]|")
  {
    var t := "[" + m + "]|";
    assert head + "][" + m + "]|" == (head + "]") + t;
  }

  lemma LabelStarts(m: string, url: string)
    ensures StartsWith("[" + m + "]: https://steemit.com" + url, "[" + m + "]")
  {
    var t := "[" + m + "]";
    assert "[" + m + "]: https://steemit.com" + url == t + (": https://steemit.com" + url);
  }

  // ---------------------------------------------------------------------------
  // The whole layout

  /** The five row lists substituted into the template. */
  datatype Body = Body(
    typeFreq: seq<string>,
    typePayTotal: seq<string>,
    typePayAvg: seq<string>,
    typePayBlog: seq<string>,
    typeUrlBlog: seq<string>)

  /**
   * The blog table lists `blogs` last first: row `i` and link line `i` are
   * those of the blog `i` places from the end.
   */
  ghost predicate ListsBlogs(body: Body, blogs: seq<Post>, wd: Widths, parse: string -> real, money: real -> string)
  {
    && |body.typePayBlog| == |body.typeUrlBlog| == |blogs|
    && forall i :: 0 <= i < |blogs| ==>
         && body.typePayBlog[i] == BlogRow(i, blogs[|blogs| - 1 - i], wd, parse, money)
         && body.typeUrlBlog[i] == UrlLine(i, blogs[|blogs| - 1 - i], wd)
  }

  /**
   * The table part of `prepareBlog`: even out the three type lists (the
   * parity is that of `type_freq`), reverse them, lay each out two entries per
   * row, then reverse the blogs and lay out one row and one link line each.
   */
  method PrepareBody(st: Stats, wd: Widths, parse: string -> real, money: real -> string) returns (body: Body)
    requires |st.typePayTotal| == |st.typeFreq| && |st.typePayAvg| == |st.typeFreq|
    ensures body.typeFreq == TypeTable(st.typeFreq, FreqTable, wd, parse, money)
    ensures body.typePayTotal == TypeTable(st.typePayTotal, TotalTable, wd, parse, money)
    ensures body.typePayAvg == TypeTable(st.typePayAvg, AvgTable, wd, parse, money)
    ensures ListsBlogs(body, st.blogs, wd, parse, money)
  {
    var freq, total, avg := st.typeFreq, st.typePayTotal, st.typePayAvg;
    if |freq| % 2 == 1 {
      freq, total, avg := [BLANK] + freq, [BLANK] + total, [BLANK] + avg;
    }
    var half := (|freq| + 1) / 2;
    ReversedLength(freq);
    ReversedLength(total);
    ReversedLength(avg);
    freq, total, avg := Reversed(freq), Reversed(total), Reversed(avg);
    var freqRows := FormatTypeTable(freq, half, FreqTable, wd, parse, money);
    var totalRows := FormatTypeTable(total, half, TotalTable, wd, parse, money);
    var avgRows := FormatTypeTable(avg, half, AvgTable, wd, parse, money);
    TypeTableIs(st.typeFreq, freq, half, FreqTable, wd, parse, money);
    TypeTableIs(st.typePayTotal, total, half, TotalTable, wd, parse, money);
    TypeTableIs(st.typePayAvg, avg, half, AvgTable, wd, parse, money);
    var blogs := Reversed(st.blogs);
    ReversedLength(st.blogs);
    forall i | 0 <= i < |st.blogs|
      ensures blogs[i] == st.blogs[|st.blogs| - 1 - i]
    {
      ReversedAt(st.blogs, i);
    }
    var blogRows, urls := FormatBlogTable(blogs, wd, parse, money);
    body := Body(freqRows, totalRows, avgRows, blogRows, urls);
  }
}
