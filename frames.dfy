/** The part of a pandas DataFrame that the row cleaner relies on: named columns,
    rows of cells, and the operations `drop(columns=...)`, `drop_duplicates()`,
    dropping the rows where a column equals zero, and boolean-mask selection. */
module Frames {
  import opened Sequences

  datatype Option<T> = None | Some(value: T)

  /** A cell: a number, or a text value in an object-typed column (NaN is not modelled). */
  datatype Value = Num(n: real) | Text(s: string)

  /** A row maps every column name of its frame to its cell. */
  type Row = map<string, Value>

  datatype Table = Table(columns: seq<string>, rows: seq<Row>)

  function ColumnSet(columns: seq<string>): set<string>
  {
    set c | c in columns
  }

  /** Column labels are unique and every row has exactly the frame's columns. */
  predicate WellFormed(t: Table)
  {
    Distinct(t.columns) && forall r :: r in t.rows ==> r.Keys == ColumnSet(t.columns)
  }

  /** The exceptions the operations below raise. */
  datatype Failure =
    | KeyError(column: string)   // the frame has no such column
    | TypeError(column: string)  // `<` or `>` between a text cell of that column and a number

  datatype Result<T> = Ok(value: T) | Err(failure: Failure) {
    predicate IsFailure() { Err? }

    function PropagateFailure<U>(): Result<U>
      requires Err?
    {
      Err(failure)
    }

    function Extract(): T
      requires Ok?
    {
      value
    }
  }

  /** A mask `lower < df[column] < upper`, or only `df[column] < upper` when there is no lower bound. */
  datatype Bound = Bound(column: string, lower: Option<real>, upper: real)

  /** A condition a row must satisfy to stay in a filtered frame. */
  datatype RowTest =
    | NonZero(column: string)  // survives `df.drop(df[df[column] == 0].index)`
    | Within(bound: Bound)     // selected by the mask of `bound`

  predicate Passes(test: RowTest, r: Row)
  {
    match test
    case NonZero(c) => !(c in r && r[c] == Num(0.0))
    case Within(b) =>
      && b.column in r
      && r[b.column].Num?
      && r[b.column].n < b.upper
      && (b.lower.Some? ==> b.lower.value < r[b.column].n)
  }

  /** The rows that pass `test`, in their original order. */
  function Where(rows: seq<Row>, test: RowTest): (r: seq<Row>)
    ensures forall x :: x in r <==> x in rows && Passes(test, x)
    ensures forall x :: multiset(r)[x] == if Passes(test, x) then multiset(rows)[x] else 0
  {
    if rows == [] then []
    else
      assert rows == rows[..|rows| - 1] + [rows[|rows| - 1]];
      Where(rows[..|rows| - 1], test) + if Passes(test, rows[|rows| - 1]) then [rows[|rows| - 1]] else []
  }

  lemma {:induction false} WhereIsSubsequence(rows: seq<Row>, test: RowTest)
    ensures IsSubsequence(Where(rows, test), rows)
    decreases |rows|
  {
    if rows != [] {
      WhereIsSubsequence(rows[..|rows| - 1], test);
      var w := Where(rows[..|rows| - 1], test);
      if Passes(test, rows[|rows| - 1]) {
        var r := Where(rows, test);
        assert r == w + [rows[|rows| - 1]];
        assert r[..|r| - 1] == w;
      } else {
        assert Where(rows, test) == w;
        SubsequenceOfPrefix(w, rows);
      }
    }
  }

  /** Every row with the cell of `column` removed. */
  function Strip(rows: seq<Row>, column: string): seq<Row>
  {
    seq(|rows|, i requires 0 <= i < |rows| => rows[i] - {column})
  }

  lemma StripMembers(rows: seq<Row>, column: string)
    ensures forall x :: x in Strip(rows, column) <==> exists r :: r in rows && x == r - {column}
  {
    var s := Strip(rows, column);
    forall x | x in s ensures exists r :: r in rows && x == r - {column} {
      var i :| 0 <= i < |s| && s[i] == x;
      assert rows[i] in rows;
    }
    forall r | r in rows ensures r - {column} in s {
      var i :| 0 <= i < |rows| && rows[i] == r;
      assert s[i] == r - {column};
    }
  }

  /** Some row holds text in `column`. */
  predicate HasText(rows: seq<Row>, column: string)
  {
    exists r: Row :: r in rows && column in r && r[column].Text?
  }

  /** `df.drop(columns=[column])`: KeyError when there is no such column; otherwise the
      column goes from the column list and from every row. */
  function DropColumn(t: Table, column: string): (r: Result<Table>)
    requires WellFormed(t)
    ensures r.Err? <==> column !in t.columns
    ensures r.Err? ==> r.failure == KeyError(column)
    ensures r.Ok? ==> WellFormed(r.value) && column !in r.value.columns && |r.value.rows| == |t.rows|
    ensures r.Ok? ==> forall c :: c in r.value.columns <==> c in t.columns && c != column
    ensures r.Ok? ==> IsSubsequence(r.value.columns, t.columns)
    ensures r.Ok? ==> forall i, c :: 0 <= i < |t.rows| && c in r.value.rows[i] ==>
      c in t.rows[i] && r.value.rows[i][c] == t.rows[i][c]
  {
    if column !in t.columns then Err(KeyError(column))
    else
      var columns := Without(t.columns, column);
      WithoutIsSubsequence(t.columns, column);
      var rows := Strip(t.rows, column);
      StripMembers(t.rows, column);
      assert ColumnSet(columns) == ColumnSet(t.columns) - {column};
      Ok(Table(columns, rows))
  }

  /** `df.drop_duplicates()`: of every group of equal rows only the first is kept. A frame
      without columns is empty to pandas, which returns it unchanged, however many rows it has. */
  function DropDuplicates(t: Table): (r: Table)
    requires WellFormed(t)
    ensures WellFormed(r) && r.columns == t.columns
    ensures forall x :: x in r.rows <==> x in t.rows
    ensures IsSubsequence(r.rows, t.rows)
    ensures t.columns == [] ==> r == t
    ensures t.columns != [] ==> Distinct(r.rows) && InFirstOccurrenceOrder(r.rows, t.rows)
  {
    if t.columns == [] then
      SubsequenceReflexive(t.rows);
      t
    else
      KeepFirstIsSubsequence(t.rows);
      KeepFirstInOrder(t.rows);
      Table(t.columns, KeepFirst(t.rows))
  }

  /** `df.drop(df[df[column] == 0].index)`: KeyError when there is no such column;
      comparing a text cell with 0 is false, so only numeric zeros go. */
  function DropZeros(t: Table, column: string): (r: Result<Table>)
    requires WellFormed(t)
    ensures r.Err? <==> column !in t.columns
    ensures r.Err? ==> r.failure == KeyError(column)
    ensures r.Ok? ==> WellFormed(r.value) && r.value.columns == t.columns
    ensures r.Ok? ==> IsSubsequence(r.value.rows, t.rows)
    ensures r.Ok? ==> forall x :: x in r.value.rows <==> x in t.rows && Passes(NonZero(column), x)
    ensures r.Ok? ==> forall x ::
      multiset(r.value.rows)[x] == if Passes(NonZero(column), x) then multiset(t.rows)[x] else 0
  {
    if column !in t.columns then Err(KeyError(column))
    else
      WhereIsSubsequence(t.rows, NonZero(column));
      Ok(Table(t.columns, Where(t.rows, NonZero(column))))
  }

  /** `df[(df[c] < upper) & (df[c] > lower)]`: KeyError when there is no column `c`, TypeError
      when some row holds text in it, otherwise a new frame with the rows inside the bound. */
  function Select(t: Table, b: Bound): (r: Result<Table>)
    requires WellFormed(t)
    ensures r.Err? <==> b.column !in t.columns || HasText(t.rows, b.column)
    ensures r.Err? ==> r.failure == if b.column !in t.columns then KeyError(b.column) else TypeError(b.column)
    ensures r.Ok? ==> WellFormed(r.value) && r.value.columns == t.columns
    ensures r.Ok? ==> IsSubsequence(r.value.rows, t.rows)
    ensures r.Ok? ==> forall x :: x in r.value.rows <==> x in t.rows && Passes(Within(b), x)
    ensures r.Ok? ==> forall x ::
      multiset(r.value.rows)[x] == if Passes(Within(b), x) then multiset(t.rows)[x] else 0
  {
    if b.column !in t.columns then Err(KeyError(b.column))
    else if HasText(t.rows, b.column) then Err(TypeError(b.column))
    else
      WhereIsSubsequence(t.rows, Within(b));
      Ok(Table(t.columns, Where(t.rows, Within(b))))
  }

  /** A DataFrame object: the in-place operations change its fields, selection makes a new one. */
  class DataFrame {
    var columns: seq<string>
    var rows: seq<Row>

    ghost predicate Valid()
      reads this
    {
      WellFormed(Table(columns, rows))
    }

    function Contents(): Table
      reads this
    {
      Table(columns, rows)
    }

    constructor (t: Table)
      requires WellFormed(t)
      ensures Valid() && Contents() == t
    {
      columns, rows := t.columns, t.rows;
    }

    /** `df.drop(columns=[column], inplace=True)`; a KeyError leaves the frame as it was. */
    method Drop(column: string) returns (failure: Option<Failure>)
      requires Valid()
      modifies this
      ensures Valid()
      ensures match DropColumn(old(Contents()), column)
              case Ok(t) => failure == None && Contents() == t
              case Err(f) => failure == Some(f) && Contents() == old(Contents())
    {
      var r := DropColumn(Contents(), column);
      if r.Err? {
        return Some(r.failure);
      }
      columns, rows := r.value.columns, r.value.rows;
      failure := None;
    }

    /** `df.drop_duplicates(inplace=True)`. */
    method DropDuplicatesInPlace()
      requires Valid()
      modifies this
      ensures Valid()
      ensures Contents() == DropDuplicates(old(Contents()))
    {
      if columns != [] {
        rows := KeepFirst(rows);
      }
    }

    /** `df.drop(df[df[column] == 0].index, inplace=True)`; a KeyError leaves the frame as it was. */
    method DropZeroRows(column: string) returns (failure: Option<Failure>)
      requires Valid()
      modifies this
      ensures Valid()
      ensures match DropZeros(old(Contents()), column)
              case Ok(t) => failure == None && Contents() == t
              case Err(f) => failure == Some(f) && Contents() == old(Contents())
    {
      var r := DropZeros(Contents(), column);
      if r.Err? {
        return Some(r.failure);
      }
      rows := r.value.rows;
      failure := None;
    }

    /** `df[mask]` for the mask of `b`: a new frame; this one is not changed. */
    method Filter(b: Bound) returns (r: Result<DataFrame>)
      requires Valid()
      ensures match Select(Contents(), b)
              case Ok(t) => r.Ok? && fresh(r.value) && r.value.Valid() && r.value.Contents() == t
              case Err(f) => r == Err(f)
    {
      var s := Select(Contents(), b);
      if s.Err? {
        return Err(s.failure);
      }
      var frame := new DataFrame(s.value);
      r := Ok(frame);
    }
  }
}
