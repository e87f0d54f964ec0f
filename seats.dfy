/** Seats of the theatre grid. A seat is a (row index, column) pair: row 0 is
    row letter `A`, nearest the screen; columns are 1-based. The labels the
    program shows and reads (`"B4"`) are the row letter followed by the column
    in decimal. */
module Seats {
  import opened Wrappers
  import opened Text

  datatype Seat = Seat(row: nat, col: nat)

  /** At most 26 rows (one per letter) and 50 seats per row. */
  const MaxRows: nat := 26
  const MaxSeatsPerRow: nat := 50

  /** `string.ascii_uppercase[i]` */
  function RowLetter(i: nat): (c: char)
    requires i < MaxRows
    ensures 'A' <= c <= 'Z'
  {
    ('A' as int + i) as char
  }

  /** `f"{row_letter}{n}"` */
  function Label(s: Seat): string
    requires s.row < MaxRows
  {
    [RowLetter(s.row)] + DecimalString(s.col)
  }

  /** The seat a label names: `s[0]` is the row letter and `int(s[1:])` the
      column. Only the canonical spelling produced by `Label` is accepted, as
      the program accepts a seat only when its label is in the seat map. */
  function ParseLabel(t: string): (r: Option<Seat>)
    ensures r.Some? ==> r.value.row < MaxRows && Label(r.value) == t
  {
    if |t| >= 2 && 'A' <= t[0] <= 'Z' && IsDecimal(t[1..]) then
      var s := Seat(t[0] as int - 'A' as int, DecimalValue(t[1..]));
      if Label(s) == t then Some(s) else None
    else None
  }

  /** Every seat's label parses back to that seat. */
  lemma ParseLabelOfLabel(s: Seat)
    requires s.row < MaxRows
    ensures ParseLabel(Label(s)) == Some(s)
  {
    var t := Label(s);
    assert t[1..] == DecimalString(s.col);
    DecimalRoundTrip(s.col);
  }

  /** Distinct seats have distinct labels. */
  lemma LabelInjective(a: Seat, b: Seat)
    requires a.row < MaxRows && b.row < MaxRows
    requires Label(a) == Label(b)
    ensures a == b
  {
    ParseLabelOfLabel(a);
    ParseLabelOfLabel(b);
  }

  /** The seat lies on a grid of `rows` rows of `seatsPerRow` seats. */
  predicate InGrid(s: Seat, rows: nat, seatsPerRow: nat) {
    s.row < rows && 1 <= s.col <= seatsPerRow
  }
}
