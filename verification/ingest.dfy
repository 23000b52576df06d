/** Reading the scan table (`hvscan.process`).

    The file arrives as rows already split into cells. The first row names the
    columns: its non-blank cells, in order, are the column headers, and those
    starting with 's' are the signal headers. Every later row contributes its
    cell `i` to the column named by header `i`, for `i` below both the row's
    length and the number of headers.

    Two behaviours of `process` are kept on purpose:
    - blank header cells are dropped from the header list, but data cells are
      still matched to headers by raw position, so a blank header before a
      real one shifts data into the wrong column (`BlankHeaderShiftsData`);
    - a short row leaves the later columns one value shorter, so columns can
      end up with unequal lengths (`ShortRowLeavesColumnsUneven`).
 */
module Ingest {
  import opened Outcome
  import opened Numerals
  import opened Sequences

  /** Column name to the values read for it, in row order. */
  type Columns = map<string, seq<real>>

  datatype Table = Table(columns: Columns, colhdrs: seq<string>, sgnlhdrs: seq<string>)

  /** The value stored for a missing cell, and for a cell reading -1. */
  const Sentinel: real := -1.0

  // ---------------------------------------------------------------- cells

  /** One data cell: blank gives the sentinel; otherwise `int()` must accept
      it, and -1 gives the sentinel. Any other cell is read again by
      `float()`, which gives the same value but rejects whitespace between
      the sign and the digits. Both rejections are a `ValueError`. */
  function Coerce(cell: string): (r: Result<real>)
    ensures r.Err? ==> r.fault == InvalidLiteral(cell)
  {
    if cell == "" then Ok(Sentinel)
    else match ParseInt(cell)
      case None => Err(InvalidLiteral(cell))
      case Some(n) =>
        if n == -1 then Ok(Sentinel)
        else if IsCompactLiteral(cell) then Ok(n as real)
        else Err(InvalidLiteral(cell))
  }

  /** A cell is accepted exactly when it is blank, or `int()` reads it and
      it is -1 or `float()` reads it too. */
  lemma CoerceAccepts(cell: string)
    ensures Coerce(cell).Ok? <==>
              cell == "" || (IsIntLiteral(cell) && (ParseInt(cell).value == -1 || IsCompactLiteral(cell)))
  {
  }

  /** Every accepted cell holds a whole number. */
  lemma CoerceIsWhole(cell: string)
    requires Coerce(cell).Ok?
    ensures Coerce(cell).value == Coerce(cell).value.Floor as real
  {
  }

  /** A non-blank accepted cell holds exactly the integer `int()` reads. */
  lemma CoerceIsIntValue(cell: string)
    requires cell != "" && Coerce(cell).Ok?
    ensures Coerce(cell).value == ParseInt(cell).value as real
  {
  }

  /** A rendered integer reads back as itself. */
  lemma CoerceShowInt(n: int)
    ensures Coerce(ShowInt(n)) == Ok(n as real)
  {
    ParseShowInt(n);
  }

  /** The sentinel is overloaded: a blank cell and a cell reading -1 agree. */
  lemma BlankAndMinusOneAgree()
    ensures Coerce("") == Coerce("-1") == Ok(Sentinel)
  {
    CoerceShowInt(-1);
    assert ShowInt(-1) == "-1";
  }

  /** A decimal fraction is a fatal parse failure, not a float. */
  lemma FractionIsFatal()
    ensures Coerce("1.5") == Err(InvalidLiteral("1.5"))
  {
    RejectsNonIntegers();
  }

  /** A cell of whitespace is not blank: `int()` rejects it. */
  lemma SpaceCellIsFatal()
    ensures Coerce(" ") == Err(InvalidLiteral(" "))
  {
    RejectsBlank();
  }

  /** Whitespace after the sign passes `int()`. A cell reading -1 then
      stops there, while any other value fails at `float()`. */
  lemma SignSpaceCells()
    ensures Coerce("- 1") == Ok(Sentinel)
    ensures Coerce("+ 7") == Err(InvalidLiteral("+ 7"))
  {
    assert DigitsValue("1") == 1 by { assert "1"[..0] == ""; }
    assert DigitsValue("7") == 7 by { assert "7"[..0] == ""; }
    assert "- 1" == ['-'] + " " + "1" && "+ 7" == ['+'] + " " + "7";
    SpaceAfterSign('-', " ", "1");
    SpaceAfterSign('+', " ", "7");
    SignedShape("+ 7", '+', " ", "7");
  }

  /** The cells of a row, left to right; the first bad cell aborts. */
  function CoerceCells(cells: seq<string>): (r: Result<seq<real>>)
    ensures r.Ok? <==> forall i :: 0 <= i < |cells| ==> Coerce(cells[i]).Ok?
    ensures r.Ok? ==> |r.value| == |cells|
    ensures r.Ok? ==> forall i :: 0 <= i < |cells| ==> r.value[i] == Coerce(cells[i]).value
    ensures r.Err? ==> exists i :: FirstFailure(CoercedCells(cells), i, r.fault)
  {
    AllValues(CoercedCells(cells))
  }

  /** The conversion of each cell, position by position. */
  function CoercedCells(cells: seq<string>): (rs: seq<Result<real>>)
    ensures |rs| == |cells|
    ensures forall i :: 0 <= i < |cells| ==> rs[i] == Coerce(cells[i])
  {
    seq(|cells|, i requires 0 <= i < |cells| => Coerce(cells[i]))
  }

  /** The values of a list of conversions, or the first failure among them. */
  function AllValues(rs: seq<Result<real>>): (r: Result<seq<real>>)
    ensures r.Ok? <==> forall i :: 0 <= i < |rs| ==> rs[i].Ok?
    ensures r.Ok? ==> |r.value| == |rs|
    ensures r.Ok? ==> forall i :: 0 <= i < |rs| ==> r.value[i] == rs[i].value
    ensures r.Err? ==> exists i :: FirstFailure(rs, i, r.fault)
  {
    if rs == [] then Ok([])
    else if rs[0].Err? then
      assert FirstFailure(rs, 0, rs[0].fault);
      Err(rs[0].fault)
    else
      var rest := AllValues(rs[1..]);
      assert forall i :: 1 <= i < |rs| ==> rs[i] == rs[1..][i - 1];
      if rest.Err? then
        var k :| FirstFailure(rs[1..], k, rest.fault);
        FirstFailureShift(rs, k, rest.fault);
        Err(rest.fault)
      else
        Ok([rs[0].value] + rest.value)
  }

  /** `rs[i]` is the first failure of `rs`, and it fails with `f`. */
  predicate FirstFailure(rs: seq<Result<real>>, i: int, f: Fault) {
    0 <= i < |rs| && rs[i] == Err(f) && forall j :: 0 <= j < i ==> rs[j].Ok?
  }

  /** The first failure of the tail, behind a success, is the first failure
      of the whole list one position further on. */
  lemma FirstFailureShift(rs: seq<Result<real>>, k: int, f: Fault)
    requires |rs| > 0 && rs[0].Ok? && FirstFailure(rs[1..], k, f)
    ensures FirstFailure(rs, k + 1, f)
  {
    forall j | 0 <= j < k + 1
      ensures rs[j].Ok?
    {
      if j > 0 {
        assert rs[j] == rs[1..][j - 1];
      }
    }
  }

  // --------------------------------------------------------------- header

  predicate IsSignalName(h: string) {
    |h| > 0 && h[0] == 's'
  }

  /** The column headers: the non-blank cells of the first row, in order. */
  function Headers(first: seq<string>): (hdrs: seq<string>)
    ensures forall h :: h in hdrs <==> h in first && h != ""
    ensures forall h :: h != "" ==> Count(hdrs, h) == Count(first, h)
    ensures |hdrs| == |first| - Count(first, "")
    ensures IsSubsequence(hdrs, first)
  {
    if first == [] then []
    else if first[0] == "" then
      var rest := Headers(first[1..]);
      SubsequenceSkip(first[0], rest, first[1..]);
      assert first == [first[0]] + first[1..];
      rest
    else
      var rest := Headers(first[1..]);
      SubsequenceCons(first[0], rest, first[1..]);
      assert first == [first[0]] + first[1..];
      forall h {
        CountCons(first[0], rest, h);
      }
      [first[0]] + rest
  }

  /** The signal headers: the first-row cells that start with 's', in order,
      each as often as it occurs there. */
  function SignalHeaders(first: seq<string>): (sig: seq<string>)
    ensures forall h :: h in sig <==> h in first && IsSignalName(h)
    ensures forall h :: Count(sig, h) == if IsSignalName(h) then Count(first, h) else 0
    ensures IsSubsequence(sig, first)
  {
    if first == [] then []
    else
      var rest := SignalHeaders(first[1..]);
      assert first == [first[0]] + first[1..];
      if IsSignalName(first[0]) then
        SubsequenceCons(first[0], rest, first[1..]);
        forall h {
          CountCons(first[0], rest, h);
        }
        [first[0]] + rest
      else
        SubsequenceSkip(first[0], rest, first[1..]);
        rest
  }

  /** The header list reads the first row left to right, cell by cell. */
  lemma {:induction false} HeadersAppend(a: seq<string>, b: seq<string>)
    ensures Headers(a + b) == Headers(a) + Headers(b)
  {
    if a == [] {
      assert a + b == b;
    } else {
      assert (a + b)[0] == a[0];
      assert (a + b)[1..] == a[1..] + b;
      HeadersAppend(a[1..], b);
    }
  }

  /** So does the signal-header list. */
  lemma {:induction false} SignalHeadersAppend(a: seq<string>, b: seq<string>)
    ensures SignalHeaders(a + b) == SignalHeaders(a) + SignalHeaders(b)
  {
    if a == [] {
      assert a + b == b;
    } else {
      assert (a + b)[0] == a[0];
      assert (a + b)[1..] == a[1..] + b;
      SignalHeadersAppend(a[1..], b);
    }
  }

  /** The signal headers are exactly the headers starting with 's', in the
      order of the header list. */
  lemma {:induction false} SignalHeadersAreSubsequence(first: seq<string>)
    ensures IsSubsequence(SignalHeaders(first), Headers(first))
    ensures forall h :: h in SignalHeaders(first) <==> h in Headers(first) && IsSignalName(h)
  {
    if first != [] {
      SignalHeadersAreSubsequence(first[1..]);
      var s, hs := SignalHeaders(first[1..]), Headers(first[1..]);
      if IsSignalName(first[0]) {
        assert SignalHeaders(first) == [first[0]] + s;
        assert Headers(first) == [first[0]] + hs;
        SubsequenceCons(first[0], s, hs);
      } else if first[0] != "" {
        assert SignalHeaders(first) == s;
        assert Headers(first) == [first[0]] + hs;
        SubsequenceSkip(first[0], s, hs);
      } else {
        assert SignalHeaders(first) == s;
        assert Headers(first) == hs;
      }
    }
  }

  /** Every header starts out with an empty column. */
  function EmptyColumns(hdrs: seq<string>): (cols: Columns)
    ensures forall h :: h in cols <==> h in hdrs
    ensures forall h :: h in cols ==> cols[h] == []
    ensures forall i :: 0 <= i < |hdrs| ==> hdrs[i] in cols && cols[hdrs[i]] == []
  {
    map h | h in hdrs :: []
  }

  // ----------------------------------------------------------------- rows

  /** The number of cells of a row that are read: the rest are ignored. */
  function Width(hdrs: seq<string>, row: seq<string>): nat {
    if |row| < |hdrs| then |row| else |hdrs|
  }

  /** The values that land in column `h` when `vals[i]` goes to column
      `hdrs[i]`: those at positions whose header is `h`, in order. */
  function Picked<K(==)>(hdrs: seq<K>, vals: seq<real>, h: K): seq<real>
    requires |hdrs| == |vals|
  {
    if hdrs == [] then []
    else (if hdrs[0] == h then [vals[0]] else []) + Picked(hdrs[1..], vals[1..], h)
  }

  lemma {:induction false} PickedCount(hdrs: seq<string>, vals: seq<real>, h: string)
    requires |hdrs| == |vals|
    ensures |Picked(hdrs, vals, h)| == Count(hdrs, h)
  {
    if hdrs != [] {
      PickedCount(hdrs[1..], vals[1..], h);
    }
  }

  /** With distinct headers each column receives exactly its own value. */
  lemma {:induction false} PickedDistinct(hdrs: seq<string>, vals: seq<real>, i: nat)
    requires |hdrs| == |vals| && i < |hdrs| && Distinct(hdrs)
    ensures Picked(hdrs, vals, hdrs[i]) == [vals[i]]
  {
    PickedCount(hdrs, vals, hdrs[i]);
    if i == 0 {
      assert hdrs[i] !in hdrs[1..];
      PickedCount(hdrs[1..], vals[1..], hdrs[i]);
    } else {
      PickedDistinct(hdrs[1..], vals[1..], i - 1);
    }
  }

  /** Appends `vals[i]` to column `hdrs[i]`, for each `i` in turn. */
  function AppendValues(cols: Columns, hdrs: seq<string>, vals: seq<real>): (r: Columns)
    requires |hdrs| == |vals|
    requires forall h :: h in hdrs ==> h in cols
    ensures r.Keys == cols.Keys
    ensures forall h :: h in cols ==> r[h] == cols[h] + Picked(hdrs, vals, h)
  {
    if hdrs == [] then cols
    else
      var next := cols[hdrs[0] := cols[hdrs[0]] + [vals[0]]];
      assert forall h :: h in hdrs[1..] ==> h in hdrs;
      var r := AppendValues(next, hdrs[1..], vals[1..]);
      AppendFirst(cols, next, r, hdrs, vals);
      r
  }

  /** Appending the first value and then the others appends all of them. */
  lemma AppendFirst<K>(cols: map<K, seq<real>>, next: map<K, seq<real>>, r: map<K, seq<real>>, hdrs: seq<K>, vals: seq<real>)
    requires |hdrs| == |vals| && |hdrs| > 0 && hdrs[0] in cols
    requires next == cols[hdrs[0] := cols[hdrs[0]] + [vals[0]]]
    requires r.Keys == next.Keys
    requires forall h :: h in next ==> r[h] == next[h] + Picked(hdrs[1..], vals[1..], h)
    ensures r.Keys == cols.Keys
    ensures forall h :: h in cols ==> r[h] == cols[h] + Picked(hdrs, vals, h)
  {
    assert next.Keys == cols.Keys;
    forall h | h in cols
      ensures r[h] == cols[h] + Picked(hdrs, vals, h)
    {
      var first := if hdrs[0] == h then [vals[0]] else [];
      assert next[h] == cols[h] + first;
      PickedFirst(r[h], next[h], cols[h], hdrs, vals, h);
    }
  }

  /** One position's share followed by the tail's share is the whole share. */
  lemma PickedFirst<K>(a: seq<real>, b: seq<real>, c: seq<real>, hdrs: seq<K>, vals: seq<real>, h: K)
    requires |hdrs| == |vals| && |hdrs| > 0
    requires a == b + Picked(hdrs[1..], vals[1..], h)
    requires b == c + (if hdrs[0] == h then [vals[0]] else [])
    ensures a == c + Picked(hdrs, vals, h)
  {
    PickedUnfold(hdrs, vals, h);
    ConcatAssociates(c, if hdrs[0] == h then [vals[0]] else [], Picked(hdrs[1..], vals[1..], h), a);
  }

  lemma PickedUnfold<K>(hdrs: seq<K>, vals: seq<real>, h: K)
    requires |hdrs| == |vals| && |hdrs| > 0
    ensures Picked(hdrs, vals, h) == (if hdrs[0] == h then [vals[0]] else []) + Picked(hdrs[1..], vals[1..], h)
  {
  }

  lemma ConcatAssociates(c: seq<real>, first: seq<real>, tail: seq<real>, a: seq<real>)
    requires a == (c + first) + tail
    ensures a == c + (first + tail)
  {
  }

  /** True when every cell that is read from `row` is accepted. */
  predicate RowParses(hdrs: seq<string>, row: seq<string>) {
    forall i :: 0 <= i < |row| && i < |hdrs| ==> Coerce(row[i]).Ok?
  }

  /** The values row `row` adds to column `h`: the converted cells, below
      the width, at the positions whose header is `h`. */
  function RowShare(hdrs: seq<string>, row: seq<string>, h: string): seq<real>
    requires RowParses(hdrs, row)
  {
    var w := Width(hdrs, row);
    assert forall i :: 0 <= i < w ==> row[..w][i] == row[i];
    Picked(hdrs[..w], CoerceCells(row[..w]).value, h)
  }

  /** One data row: cell `i` is appended to column `hdrs[i]` for every `i`
      below the width; cells past the header count are not even parsed. */
  function IngestRow(cols: Columns, hdrs: seq<string>, row: seq<string>): (r: Result<Columns>)
    requires forall h :: h in hdrs ==> h in cols
    ensures r.Ok? <==> RowParses(hdrs, row)
    ensures r.Ok? ==> r.value.Keys == cols.Keys
    ensures r.Ok? ==> forall h :: h in cols ==> r.value[h] == cols[h] + RowShare(hdrs, row, h)
    ensures r.Ok? ==> forall h :: h in cols ==> |r.value[h]| == |cols[h]| + Count(hdrs[..Width(hdrs, row)], h)
    ensures r.Ok? ==> forall h :: h in cols ==> cols[h] <= r.value[h]
    ensures r.Ok? ==> forall h :: h in cols && h !in hdrs[..Width(hdrs, row)] ==> r.value[h] == cols[h]
  {
    var w := Width(hdrs, row);
    assert forall i :: 0 <= i < w ==> row[..w][i] == row[i];
    var vals :- CoerceCells(row[..w]);
    var r := AppendValues(cols, hdrs[..w], vals);
    assert forall h :: h in cols ==> |r[h]| == |cols[h]| + Count(hdrs[..w], h) by {
      forall h | h in cols {
        PickedCount(hdrs[..w], vals, h);
      }
    }
    Ok(r)
  }

  /** With distinct headers, a row adds exactly its own cell to each column
      it reaches and leaves every other column alone. */
  lemma IngestRowDistinct(cols: Columns, hdrs: seq<string>, row: seq<string>)
    requires forall h :: h in hdrs ==> h in cols
    requires Distinct(hdrs) && RowParses(hdrs, row)
    ensures forall i :: 0 <= i < |hdrs| && i < |row| ==>
              IngestRow(cols, hdrs, row).value[hdrs[i]] == cols[hdrs[i]] + [Coerce(row[i]).value]
    ensures forall i :: |row| <= i < |hdrs| ==>
              IngestRow(cols, hdrs, row).value[hdrs[i]] == cols[hdrs[i]]
  {
    var w := Width(hdrs, row);
    var vals := CoerceCells(row[..w]).value;
    assert forall i :: 0 <= i < w ==> row[..w][i] == row[i];
    forall i | 0 <= i < |hdrs| && i < |row|
      ensures IngestRow(cols, hdrs, row).value[hdrs[i]] == cols[hdrs[i]] + [Coerce(row[i]).value]
    {
      PickedDistinct(hdrs[..w], vals, i);
    }
    forall i | |row| <= i < |hdrs|
      ensures IngestRow(cols, hdrs, row).value[hdrs[i]] == cols[hdrs[i]]
    {
      assert hdrs[i] !in hdrs[..w];
    }
  }

  /** Cells beyond the header count are ignored, whatever they hold. */
  lemma ExtraCellsIgnored(cols: Columns, hdrs: seq<string>, row: seq<string>, extra: seq<string>)
    requires forall h :: h in hdrs ==> h in cols
    requires |row| >= |hdrs|
    ensures IngestRow(cols, hdrs, row + extra) == IngestRow(cols, hdrs, row)
  {
    var w := Width(hdrs, row);
    assert Width(hdrs, row + extra) == w;
    assert (row + extra)[..w] == row[..w];
  }

  /** Every data row parses. */
  predicate RowsParse(hdrs: seq<string>, rows: seq<seq<string>>) {
    rows == [] || (RowParses(hdrs, rows[0]) && RowsParse(hdrs, rows[1..]))
  }

  /** The values the rows add to column `h`, row after row. */
  function Shares(hdrs: seq<string>, rows: seq<seq<string>>, h: string): seq<real>
    requires RowsParse(hdrs, rows)
  {
    if rows == [] then [] else RowShare(hdrs, rows[0], h) + Shares(hdrs, rows[1..], h)
  }

  /** The number of cells of the rows that are matched to header `h`. */
  function Reached(hdrs: seq<string>, rows: seq<seq<string>>, h: string): nat {
    if rows == [] then 0 else Count(hdrs[..Width(hdrs, rows[0])], h) + Reached(hdrs, rows[1..], h)
  }

  /** The data rows in order; the first row with a bad cell aborts. */
  function IngestRows(cols: Columns, hdrs: seq<string>, rows: seq<seq<string>>): (r: Result<Columns>)
    requires forall h :: h in hdrs ==> h in cols
    ensures r.Ok? <==> RowsParse(hdrs, rows)
    ensures r.Ok? ==> r.value.Keys == cols.Keys
    ensures r.Ok? ==> forall h :: h in cols ==> r.value[h] == cols[h] + Shares(hdrs, rows, h)
    ensures r.Ok? ==> forall h :: h in cols ==> |r.value[h]| == |cols[h]| + Reached(hdrs, rows, h)
  {
    if rows == [] then Ok(cols)
    else
      var c :- IngestRow(cols, hdrs, rows[0]);
      var r := IngestRows(c, hdrs, rows[1..]);
      if r.Ok? then
        RowsStep(cols, c, r.value, hdrs, rows);
        r
      else
        r
  }

  /** One row's share followed by the later rows' shares is all the rows'
      shares. */
  lemma RowsStep(cols: Columns, c: Columns, r: Columns, hdrs: seq<string>, rows: seq<seq<string>>)
    requires rows != [] && RowsParse(hdrs, rows)
    requires c.Keys == cols.Keys && r.Keys == c.Keys
    requires forall h :: h in cols ==> c[h] == cols[h] + RowShare(hdrs, rows[0], h)
    requires forall h :: h in cols ==> |c[h]| == |cols[h]| + Count(hdrs[..Width(hdrs, rows[0])], h)
    requires forall h :: h in c ==> r[h] == c[h] + Shares(hdrs, rows[1..], h)
    requires forall h :: h in c ==> |r[h]| == |c[h]| + Reached(hdrs, rows[1..], h)
    ensures forall h :: h in cols ==> r[h] == cols[h] + Shares(hdrs, rows, h)
    ensures forall h :: h in cols ==> |r[h]| == |cols[h]| + Reached(hdrs, rows, h)
  {
    forall h | h in cols
      ensures r[h] == cols[h] + Shares(hdrs, rows, h)
    {
      ConcatAssociates(cols[h], RowShare(hdrs, rows[0], h), Shares(hdrs, rows[1..], h), r[h]);
    }
  }

  /** Among distinct headers each header occurs once. */
  lemma {:induction false} DistinctCount(hdrs: seq<string>, h: string)
    requires Distinct(hdrs) && h in hdrs
    ensures Count(hdrs, h) == 1
  {
    if hdrs[0] == h {
      assert h !in hdrs[1..];
    } else {
      assert Distinct(hdrs[1..]) by {
        assert forall i :: 0 <= i < |hdrs[1..]| ==> hdrs[1..][i] == hdrs[i + 1];
      }
      DistinctCount(hdrs[1..], h);
    }
  }

  /** With distinct headers and no short row, each header is reached once
      per row. */
  lemma {:induction false} ReachedFullRows(hdrs: seq<string>, rows: seq<seq<string>>, h: string)
    requires Distinct(hdrs) && h in hdrs
    requires forall k :: 0 <= k < |rows| ==> |rows[k]| >= |hdrs|
    ensures Reached(hdrs, rows, h) == |rows|
  {
    if rows != [] {
      assert Width(hdrs, rows[0]) == |hdrs| && hdrs[..|hdrs|] == hdrs;
      DistinctCount(hdrs, h);
      assert forall k :: 0 <= k < |rows[1..]| ==> rows[1..][k] == rows[k + 1];
      ReachedFullRows(hdrs, rows[1..], h);
    }
  }

  /** With distinct headers and no short row, every column ends up with
      exactly one value per data row. */
  lemma IngestRowsFullRows(cols: Columns, hdrs: seq<string>, rows: seq<seq<string>>, n: nat)
    requires forall h :: h in hdrs ==> h in cols
    requires Distinct(hdrs)
    requires forall h :: h in hdrs ==> |cols[h]| == n
    requires forall k :: 0 <= k < |rows| ==> |rows[k]| >= |hdrs|
    requires IngestRows(cols, hdrs, rows).Ok?
    ensures forall h :: h in hdrs ==> |IngestRows(cols, hdrs, rows).value[h]| == n + |rows|
  {
    forall h | h in hdrs
      ensures |IngestRows(cols, hdrs, rows).value[h]| == n + |rows|
    {
      ReachedFullRows(hdrs, rows, h);
    }
  }

  // ---------------------------------------------------------------- table

  /** `process`: the whole file, first row as header. An empty file gives an
      empty table. */
  function Process(rows: seq<seq<string>>): (r: Result<Table>)
    ensures rows == [] ==> r == Ok(Table(map[], [], []))
    ensures rows != [] ==> (r.Ok? <==> RowsParse(Headers(rows[0]), rows[1..]))
    ensures rows != [] && r.Ok? ==>
              r.value.colhdrs == Headers(rows[0]) && r.value.sgnlhdrs == SignalHeaders(rows[0])
    ensures r.Ok? ==> forall h :: h in r.value.columns <==> h in r.value.colhdrs
    ensures rows != [] && r.Ok? ==> forall h :: h in r.value.colhdrs ==>
              r.value.columns[h] == Shares(Headers(rows[0]), rows[1..], h) &&
              |r.value.columns[h]| == Reached(Headers(rows[0]), rows[1..], h)
  {
    if rows == [] then Ok(Table(map[], [], []))
    else
      var hdrs := Headers(rows[0]);
      var cols :- IngestRows(EmptyColumns(hdrs), hdrs, rows[1..]);
      Ok(Table(cols, hdrs, SignalHeaders(rows[0])))
  }

  /** With distinct headers and no short row, every header's column holds
      one value per data row. */
  lemma ProcessFullRows(rows: seq<seq<string>>)
    requires rows != [] && Distinct(Headers(rows[0]))
    requires forall k :: 1 <= k < |rows| ==> |rows[k]| >= |Headers(rows[0])|
    requires Process(rows).Ok?
    ensures forall h :: h in Process(rows).value.colhdrs ==> |Process(rows).value.columns[h]| == |rows| - 1
  {
    DataRowsReached(rows);
    ProcessColumnsReached(rows);
  }

  /** With distinct headers and no short data row, each header is reached
      once per data row. */
  lemma DataRowsReached(rows: seq<seq<string>>)
    requires rows != [] && Distinct(Headers(rows[0]))
    requires forall k :: 1 <= k < |rows| ==> |rows[k]| >= |Headers(rows[0])|
    ensures forall h :: h in Headers(rows[0]) ==> Reached(Headers(rows[0]), rows[1..], h) == |rows| - 1
  {
    var hdrs, data := Headers(rows[0]), rows[1..];
    assert forall k :: 0 <= k < |data| ==> |data[k]| >= |hdrs| by {
      assert forall k :: 0 <= k < |data| ==> data[k] == rows[k + 1];
    }
    AllReachedFullRows(hdrs, data);
  }

  /** Each column of the table holds as many values as the rows have cells
      matched to its header. */
  lemma ProcessColumnsReached(rows: seq<seq<string>>)
    requires rows != [] && Process(rows).Ok?
    requires forall h :: h in Headers(rows[0]) ==> Reached(Headers(rows[0]), rows[1..], h) == |rows| - 1
    ensures forall h :: h in Process(rows).value.colhdrs ==> |Process(rows).value.columns[h]| == |rows| - 1
  {
    forall h | h in Process(rows).value.colhdrs
      ensures |Process(rows).value.columns[h]| == |rows| - 1
    {
      ProcessColumnLength(rows, h);
    }
  }

  lemma ProcessColumnLength(rows: seq<seq<string>>, h: string)
    requires rows != [] && Process(rows).Ok? && h in Process(rows).value.colhdrs
    ensures h in Headers(rows[0])
    ensures |Process(rows).value.columns[h]| == Reached(Headers(rows[0]), rows[1..], h)
  {
  }

  lemma AllReachedFullRows(hdrs: seq<string>, rows: seq<seq<string>>)
    requires Distinct(hdrs)
    requires forall k :: 0 <= k < |rows| ==> |rows[k]| >= |hdrs|
    ensures forall h :: h in hdrs ==> Reached(hdrs, rows, h) == |rows|
  {
    forall h | h in hdrs {
      ReachedFullRows(hdrs, rows, h);
    }
  }

  /** A row whose only cell read is the rendering of `n` parses, and gives
      `n` to the first header and nothing to any other. */
  lemma OneCellShare(hdrs: seq<string>, row: seq<string>, n: int, h: string)
    requires Width(hdrs, row) == 1 && row[0] == ShowInt(n)
    ensures RowParses(hdrs, row)
    ensures RowShare(hdrs, row, h) == if hdrs[0] == h then [n as real] else []
  {
    CoerceShowInt(n);
    assert row[..1] == [row[0]];
    var vals := CoerceCells(row[..1]).value;
    assert vals == [n as real];
    var hs := hdrs[..1];
    PickedUnfold(hs, vals, h);
    assert hs[1..] == [] && vals[1..] == [];
  }

  /** A table of one data row that is read up to one cell only: the first
      column gets that cell's value and every other column stays empty. */
  lemma OneCellTable(first: seq<string>, row: seq<string>, n: int, h: string)
    requires first != [] && Width(Headers(first), row) == 1 && row[0] == ShowInt(n)
    requires h in Headers(first)
    ensures Process([first, row]).Ok?
    ensures Process([first, row]).value.columns[h] == if Headers(first)[0] == h then [n as real] else []
  {
    var hdrs, data := Headers(first), [first, row][1..];
    assert data == [row] && data[1..] == [];
    OneCellShare(hdrs, row, n, h);
    assert RowsParse(hdrs, data);
    assert Shares(hdrs, data, h) == RowShare(hdrs, row, h);
  }

  /** A blank header cell before "HV" sends the first data cell, meant for
      the blank column, into "HV"; the real "HV" cell is dropped. */
  lemma BlankHeaderShiftsData()
    ensures var r := Process([["", "HV"], ["5", "7"]]);
            r.Ok? && r.value.colhdrs == ["HV"] && r.value.columns["HV"] == [5.0]
  {
    var first := ["", "HV"];
    assert Headers(first) == ["HV"] by {
      assert first[1..] == ["HV"];
      assert ["HV"][1..] == [];
    }
    assert ShowInt(5) == "5";
    OneCellTable(first, ["5", "7"], 5, "HV");
  }

  lemma HvSignalHeaders()
    ensures Headers(["HV", "s1"]) == ["HV", "s1"]
    ensures SignalHeaders(["HV", "s1"]) == ["s1"]
  {
    var first := ["HV", "s1"];
    assert first[1..] == ["s1"] && ["s1"][1..] == [];
    assert IsSignalName("s1") && !IsSignalName("HV");
  }

  /** A short row leaves the later column behind: columns end up uneven. */
  lemma ShortRowLeavesColumnsUneven()
    ensures var r := Process([["HV", "s1"], ["1"]]);
            r.Ok? && r.value.colhdrs == ["HV", "s1"] && r.value.sgnlhdrs == ["s1"]
            && r.value.columns["HV"] == [1.0] && r.value.columns["s1"] == []
  {
    var first := ["HV", "s1"];
    HvSignalHeaders();
    assert ShowInt(1) == "1";
    assert "HV" != "s1" by { assert "HV"[0] != "s1"[0]; }
    OneCellTable(first, ["1"], 1, "HV");
    OneCellTable(first, ["1"], 1, "s1");
  }
}
