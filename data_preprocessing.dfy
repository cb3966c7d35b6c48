/** The row cleaner `preprocess_df` of the diamond price pipeline. It drops the
    bookkeeping index column, duplicate rows and rows with a zero dimension from the
    caller's frame in place, then selects the rows inside fixed bounds into new
    frames and returns the last of them. A missing column raises KeyError, which is
    re-raised; any other exception is swallowed and the function returns None. */
module DataPreprocessing {
  import opened Sequences
  import opened Frames

  /** The index column `read_csv` brings in from the raw file. */
  const IndexColumn: string := "Unnamed: 0"

  const DepthBound := Bound("depth", Some(50.0), 75.0)
  const TableBound := Bound("table", Some(45.0), 80.0)
  const XBound := Bound("x", None, 30.0)
  const YBound := Bound("y", None, 30.0)
  const ZBound := Bound("z", Some(2.0), 30.0)

  /** The columns the cleaner indexes, in the order it first touches them. */
  const Required: seq<string> := [IndexColumn, "x", "y", "z", "depth", "table"]

  /** The columns the outlier filters compare with numbers. */
  const Measured: seq<string> := ["depth", "table", "x", "y", "z"]

  /** Where the in-place steps left the frame, and the KeyError that stopped them, if any. */
  datatype Stage = Stage(frame: Table, failure: Option<Failure>)

  /** How a call ends: a returned frame, a re-raised KeyError, or `None` after a swallowed exception. */
  datatype Outcome<T> =
    | Returned(frame: T)
    | Raised(error: Failure)
    | ReturnedNone

  /** The first column of `Required` that is not among `columns`. */
  function FirstMissing(columns: seq<string>): (m: Option<string>)
    ensures m.Some? ==> m.value in Required && m.value !in columns
    ensures m.None? <==> forall c :: c in Required ==> c in columns
    ensures m.Some? ==>
      exists i :: 0 <= i < |Required| && Required[i] == m.value && forall j :: 0 <= j < i ==> Required[j] in columns
  {
    if IndexColumn !in columns then Some(IndexColumn)
    else if "x" !in columns then Some("x")
    else if "y" !in columns then Some("y")
    else if "z" !in columns then Some("z")
    else if "depth" !in columns then Some("depth")
    else if "table" !in columns then Some("table")
    else None
  }

  /** The row conditions of the three zero-dimension drops. */
  predicate NonZeroDimensions(r: Row)
  {
    Passes(NonZero("x"), r) && Passes(NonZero("y"), r) && Passes(NonZero("z"), r)
  }

  /** The row conditions of the five outlier masks. */
  predicate InsideBounds(r: Row)
  {
    && Passes(Within(DepthBound), r) && Passes(Within(TableBound), r)
    && Passes(Within(XBound), r) && Passes(Within(YBound), r) && Passes(Within(ZBound), r)
  }

  /** Steps 1-3, which change the caller's frame: drop the index column, the duplicates and
      the rows whose x, y or z is zero. A KeyError stops them where it is raised. */
  function InPlaceSteps(t: Table): (s: Stage)
    requires WellFormed(t)
    ensures WellFormed(s.frame)
    ensures s.failure.Some? ==> s.failure.value.KeyError?
  {
    match DropColumn(t, IndexColumn)
    case Err(f) => Stage(t, Some(f))
    case Ok(t1) =>
      var t2 := DropDuplicates(t1);
      match DropZeros(t2, "x")
      case Err(f) => Stage(t2, Some(f))
      case Ok(t3) =>
        match DropZeros(t3, "y")
        case Err(f) => Stage(t3, Some(f))
        case Ok(t4) =>
          match DropZeros(t4, "z")
          case Err(f) => Stage(t4, Some(f))
          case Ok(t5) => Stage(t5, None)
  }

  /** Step 4, which rebinds the local name to successively selected new frames. */
  function FilterOutliers(t: Table): (r: Result<Table>)
    requires WellFormed(t)
    ensures r.Ok? ==> WellFormed(r.value) && r.value.columns == t.columns
  {
    var t1 :- Select(t, DepthBound);
    var t2 :- Select(t1, TableBound);
    var t3 :- Select(t2, XBound);
    var t4 :- Select(t3, YBound);
    Select(t4, ZBound)
  }

  /** The two except clauses. */
  function Handle<T>(f: Failure): (r: Outcome<T>)
    ensures !r.Returned?
    ensures r.Raised? <==> f.KeyError?
    ensures r.Raised? ==> r.error == f
  {
    if f.KeyError? then Raised(f) else ReturnedNone
  }

  /** What `preprocess_df` returns or raises for a frame holding `t`. */
  function Preprocess(t: Table): (r: Outcome<Table>)
    requires WellFormed(t)
    ensures r.Returned? ==> WellFormed(r.frame)
    ensures r.Raised? ==> r.error.KeyError?
  {
    var s := InPlaceSteps(t);
    if s.failure.Some? then Handle(s.failure.value)
    else
      match FilterOutliers(s.frame)
      case Ok(u) => Returned(u)
      case Err(f) => Handle(f)
  }

  /** Steps 1-3 on the caller's object: `drop(columns=..., inplace=True)`,
      `drop_duplicates(inplace=True)` and the three `drop(df[df[c] == 0].index, inplace=True)`. */
  method CleanInPlace(df: DataFrame) returns (failure: Option<Failure>)
    requires df.Valid()
    modifies df
    ensures df.Valid()
    ensures Stage(df.Contents(), failure) == InPlaceSteps(old(df.Contents()))
  {
    failure := df.Drop(IndexColumn);
    if failure.Some? {
      return;
    }
    df.DropDuplicatesInPlace();
    failure := df.DropZeroRows("x");
    if failure.Some? {
      return;
    }
    failure := df.DropZeroRows("y");
    if failure.Some? {
      return;
    }
    failure := df.DropZeroRows("z");
  }

  /** Step 4, the five `df = df[mask]` selections: each yields a new object, so `df` is not changed. */
  method SelectInBounds(df: DataFrame) returns (r: Result<DataFrame>)
    requires df.Valid()
    ensures match FilterOutliers(df.Contents())
            case Ok(u) => r.Ok? && fresh(r.value) && r.value.Valid() && r.value.Contents() == u
            case Err(f) => r == Err(f)
  {
    var selected := df.Filter(DepthBound);
    if selected.Err? {
      return selected;
    }
    selected := selected.value.Filter(TableBound);
    if selected.Err? {
      return selected;
    }
    selected := selected.value.Filter(XBound);
    if selected.Err? {
      return selected;
    }
    selected := selected.value.Filter(YBound);
    if selected.Err? {
      return selected;
    }
    ghost var t4 := selected.value.Contents();
    assert FilterOutliers(df.Contents()) == Select(t4, ZBound);
    r := selected.value.Filter(ZBound);
  }

  /** `preprocess_df(df)`: the caller's frame ends in the state the in-place steps left it in,
      and a returned frame is a new object, distinct from `df`. */
  method PreprocessDf(df: DataFrame) returns (out: Outcome<DataFrame>)
    requires df.Valid()
    modifies df
    ensures df.Valid()
    ensures df.Contents() == InPlaceSteps(old(df.Contents())).frame
    ensures match Preprocess(old(df.Contents()))
            case Returned(u) => out.Returned? && fresh(out.frame) && out.frame.Valid() && out.frame.Contents() == u
            case Raised(f) => out == Raised(f)
            case ReturnedNone => out == ReturnedNone
  {
    var failure := CleanInPlace(df);
    if failure.Some? {
      return Handle(failure.value);
    }
    var selected := SelectInBounds(df);
    if selected.Err? {
      return Handle(selected.failure);
    }
    out := Returned(selected.value);
  }

  // ---------------------------------------------------------------------------
  // Properties of the model

  /** Text in a column of some rows is text in that column of any rows containing them. */
  lemma HasTextOfMembers(a: seq<Row>, b: seq<Row>, column: string)
    requires forall x :: x in a ==> x in b
    requires HasText(a, column)
    ensures HasText(b, column)
  {
    var r: Row :| r in a && column in r && r[column].Text?;
    assert r in b;
  }

  /** What steps 1-3 leave in the caller's frame, and which KeyError stops them. */
  lemma InPlaceStepsFacts(t: Table)
    requires WellFormed(t)
    ensures var s := InPlaceSteps(t);
      var m := FirstMissing(t.columns);
      && (s.failure.Some? <==> m.Some? && m.value != "depth" && m.value != "table")
      && (s.failure.Some? ==> s.failure == Some(KeyError(m.value)))
      && (IndexColumn !in t.columns ==> s.frame == t)
      && (IndexColumn in t.columns ==>
            && s.frame.columns == Without(t.columns, IndexColumn)
            && IsSubsequence(s.frame.rows, Strip(t.rows, IndexColumn))
            && (s.frame.columns != [] ==> IsSubsequence(s.frame.rows, KeepFirst(Strip(t.rows, IndexColumn))))
            && (s.frame.columns == [] ==> s.frame == Table([], Strip(t.rows, IndexColumn))))
      && (s.failure.None? ==>
            forall r :: r in s.frame.rows <==> r in Strip(t.rows, IndexColumn) && NonZeroDimensions(r))
  {
    if IndexColumn in t.columns {
      var t1 := DropColumn(t, IndexColumn).value;
      assert t1 == Table(Without(t.columns, IndexColumn), Strip(t.rows, IndexColumn));
      var t2 := DropDuplicates(t1);
      SubsequenceReflexive(t2.rows);
      if "x" in t.columns {
        var t3 := DropZeros(t2, "x").value;
        if "y" in t.columns {
          var t4 := DropZeros(t3, "y").value;
          SubsequenceTransitive(t4.rows, t3.rows, t2.rows);
          if "z" in t.columns {
            var t5 := DropZeros(t4, "z").value;
            SubsequenceTransitive(t5.rows, t4.rows, t2.rows);
          }
        }
      }
      SubsequenceTransitive(InPlaceSteps(t).frame.rows, t2.rows, t1.rows);
    }
  }

  /** What step 4 selects, and which exception it raises. */
  lemma FilterOutliersFacts(t: Table)
    requires WellFormed(t)
    ensures FilterOutliers(t).Ok? ==>
      var u := FilterOutliers(t).value;
      && u.columns == t.columns
      && IsSubsequence(u.rows, t.rows)
      && (forall r :: r in u.rows <==> r in t.rows && InsideBounds(r))
      && forall r :: multiset(u.rows)[r] == if InsideBounds(r) then multiset(t.rows)[r] else 0
    ensures FilterOutliers(t).Err? ==>
      var f := FilterOutliers(t).failure;
      && f.column in Measured
      && (f.KeyError? ==> f.column !in t.columns)
      && (f.TypeError? ==> HasText(t.rows, f.column))
    ensures "depth" !in t.columns ==> FilterOutliers(t) == Err(KeyError("depth"))
    ensures "depth" in t.columns && !HasText(t.rows, "depth") && "table" !in t.columns ==>
      FilterOutliers(t) == Err(KeyError("table"))
    ensures (forall c :: c in Measured ==> c in t.columns && !HasText(t.rows, c)) ==> FilterOutliers(t).Ok?
  {
    var r1 := Select(t, DepthBound);
    if r1.Ok? {
      var t1 := r1.value;
      var r2 := Select(t1, TableBound);
      if HasText(t1.rows, "table") { HasTextOfMembers(t1.rows, t.rows, "table"); }
      if r2.Ok? {
        var t2 := r2.value;
        var r3 := Select(t2, XBound);
        if HasText(t2.rows, "x") { HasTextOfMembers(t2.rows, t.rows, "x"); }
        if r3.Ok? {
          var t3 := r3.value;
          var r4 := Select(t3, YBound);
          if HasText(t3.rows, "y") { HasTextOfMembers(t3.rows, t.rows, "y"); }
          if r4.Ok? {
            var t4 := r4.value;
            var r5 := Select(t4, ZBound);
            if HasText(t4.rows, "z") { HasTextOfMembers(t4.rows, t.rows, "z"); }
            if r5.Ok? {
              SubsequenceTransitive(t2.rows, t1.rows, t.rows);
              SubsequenceTransitive(t3.rows, t2.rows, t.rows);
              SubsequenceTransitive(t4.rows, t3.rows, t.rows);
              SubsequenceTransitive(r5.value.rows, t4.rows, t.rows);
            }
          }
        }
      }
    }
  }

  /** Text in a column other than the stripped one shows in the unstripped rows. */
  lemma HasTextOfStrip(rows: seq<Row>, stripped: string, column: string)
    requires column != stripped && HasText(Strip(rows, stripped), column)
    ensures HasText(rows, column)
  {
    StripMembers(rows, stripped);
    var x: Row :| x in Strip(rows, stripped) && column in x && x[column].Text?;
    var r :| r in rows && x == r - {stripped};
    assert column in r && r[column] == x[column];
  }

  /** The facts about a returned frame that the lemmas below draw on. */
  lemma ReturnedFrameFacts(t: Table)
    requires WellFormed(t)
    ensures Preprocess(t).Returned? ==> var u, after := Preprocess(t).frame, InPlaceSteps(t).frame;
      && IndexColumn in t.columns
      && InPlaceSteps(t).failure.None?
      && u.columns == after.columns == Without(t.columns, IndexColumn)
      && IsSubsequence(u.rows, after.rows)
      && IsSubsequence(after.rows, KeepFirst(Strip(t.rows, IndexColumn)))
      && (forall r :: r in u.rows <==> r in after.rows && InsideBounds(r))
      && (forall r :: r in after.rows <==> r in Strip(t.rows, IndexColumn) && NonZeroDimensions(r))
  {
    InPlaceStepsFacts(t);
    if InPlaceSteps(t).failure.None? {
      FilterOutliersFacts(InPlaceSteps(t).frame);
    }
  }

  /** The cells of a row inside all five bounds. */
  lemma InsideBoundsCells(r: Row)
    requires InsideBounds(r)
    ensures && "depth" in r && r["depth"].Num? && 50.0 < r["depth"].n < 75.0
            && "table" in r && r["table"].Num? && 45.0 < r["table"].n < 80.0
            && "x" in r && r["x"].Num? && r["x"].n < 30.0
            && "y" in r && r["y"].Num? && r["y"].n < 30.0
            && "z" in r && r["z"].Num? && 2.0 < r["z"].n < 30.0
  {
  }

  /** Every returned row lies strictly inside all five bounds. */
  lemma ReturnedRowsInsideBounds(t: Table)
    requires WellFormed(t)
    ensures Preprocess(t).Returned? ==> forall r: Row :: r in Preprocess(t).frame.rows ==>
      && "depth" in r && r["depth"].Num? && 50.0 < r["depth"].n < 75.0
      && "table" in r && r["table"].Num? && 45.0 < r["table"].n < 80.0
      && "x" in r && r["x"].Num? && r["x"].n < 30.0
      && "y" in r && r["y"].Num? && r["y"].n < 30.0
      && "z" in r && r["z"].Num? && 2.0 < r["z"].n < 30.0
  {
    ReturnedFrameFacts(t);
    if Preprocess(t).Returned? {
      forall r: Row | r in Preprocess(t).frame.rows
        ensures && "depth" in r && r["depth"].Num? && 50.0 < r["depth"].n < 75.0
                && "table" in r && r["table"].Num? && 45.0 < r["table"].n < 80.0
                && "x" in r && r["x"].Num? && r["x"].n < 30.0
                && "y" in r && r["y"].Num? && r["y"].n < 30.0
                && "z" in r && r["z"].Num? && 2.0 < r["z"].n < 30.0
      {
        InsideBoundsCells(r);
      }
    }
  }

  /** No returned row has a zero x, y or z. */
  lemma ReturnedRowsHaveNonZeroDimensions(t: Table)
    requires WellFormed(t)
    ensures Preprocess(t).Returned? ==> forall r: Row :: r in Preprocess(t).frame.rows ==>
      && "x" in r && r["x"] != Num(0.0)
      && "y" in r && r["y"] != Num(0.0)
      && "z" in r && r["z"] != Num(0.0)
  {
    ReturnedFrameFacts(t);
  }

  /** The returned rows are input rows without their index cell, every other cell as it was,
      in their original relative order. */
  lemma ReturnedRowsAreInputRowsInOrder(t: Table)
    requires WellFormed(t)
    ensures Preprocess(t).Returned? ==> IsSubsequence(Preprocess(t).frame.rows, Strip(t.rows, IndexColumn))
    ensures Preprocess(t).Returned? ==> forall r: Row :: r in Preprocess(t).frame.rows ==>
      exists r0 :: r0 in t.rows && r == r0 - {IndexColumn}
  {
    ReturnedFrameFacts(t);
    if Preprocess(t).Returned? {
      var u, after := Preprocess(t).frame, InPlaceSteps(t).frame;
      var stripped := Strip(t.rows, IndexColumn);
      KeepFirstIsSubsequence(stripped);
      SubsequenceTransitive(after.rows, KeepFirst(stripped), stripped);
      SubsequenceTransitive(u.rows, after.rows, stripped);
      StripMembers(t.rows, IndexColumn);
    }
  }

  /** No two returned rows are equal, and each group of equal input rows is represented at the
      place of its first occurrence: the returned rows follow the order of first occurrences. */
  lemma ReturnedRowsKeepFirstOccurrences(t: Table)
    requires WellFormed(t)
    ensures Preprocess(t).Returned? ==> Distinct(Preprocess(t).frame.rows)
    ensures Preprocess(t).Returned? ==>
      InFirstOccurrenceOrder(Preprocess(t).frame.rows, Strip(t.rows, IndexColumn))
  {
    ReturnedFrameFacts(t);
    if Preprocess(t).Returned? {
      var u, after := Preprocess(t).frame, InPlaceSteps(t).frame;
      var stripped := Strip(t.rows, IndexColumn);
      SubsequenceTransitive(u.rows, after.rows, KeepFirst(stripped));
      SubsequenceOfDistinct(u.rows, KeepFirst(stripped));
      KeepFirstInOrder(stripped);
      SubsequenceInFirstOccurrenceOrder(u.rows, KeepFirst(stripped), stripped);
    }
  }

  /** A row is returned exactly when it is an input row without its index cell, with nonzero
      dimensions and inside every bound. */
  lemma ReturnedRowsComplete(t: Table)
    requires WellFormed(t)
    ensures Preprocess(t).Returned? ==> forall r :: r in Preprocess(t).frame.rows <==>
      r in Strip(t.rows, IndexColumn) && NonZeroDimensions(r) && InsideBounds(r)
  {
    ReturnedFrameFacts(t);
  }

  /** The returned columns are the input columns without the index column, in their order. */
  lemma ReturnedColumns(t: Table)
    requires WellFormed(t)
    ensures Preprocess(t).Returned? ==> Preprocess(t).frame.columns == Without(t.columns, IndexColumn)
    ensures Preprocess(t).Returned? ==> IsSubsequence(Preprocess(t).frame.columns, t.columns)
    ensures Preprocess(t).Returned? ==>
      forall c :: c in Preprocess(t).frame.columns <==> c in t.columns && c != IndexColumn
  {
    ReturnedFrameFacts(t);
    WithoutIsSubsequence(t.columns, IndexColumn);
  }

  /** An exception that reaches the caller is a KeyError naming the first missing column. */
  lemma RaisedErrorNamesMissingColumn(t: Table)
    requires WellFormed(t)
    ensures Preprocess(t).Raised? ==> var e := Preprocess(t).error;
      e.KeyError? && e.column in Required && e.column !in t.columns && FirstMissing(t.columns) == Some(e.column)
  {
    InPlaceStepsFacts(t);
    var s := InPlaceSteps(t);
    if s.failure.None? {
      FilterOutliersFacts(s.frame);
    }
  }

  /** A missing column is reported as a KeyError that names it. The only exception raised
      earlier is the TypeError of a text depth cell, which can come before a missing table. */
  lemma MissingColumnRaisesKeyError(t: Table)
    requires WellFormed(t) && FirstMissing(t.columns).Some?
    requires FirstMissing(t.columns) == Some("table") ==> !HasText(t.rows, "depth")
    ensures Preprocess(t) == Raised(KeyError(FirstMissing(t.columns).value))
  {
    InPlaceStepsFacts(t);
    var s := InPlaceSteps(t);
    if s.failure.None? {
      var frame := s.frame;
      FilterOutliersFacts(frame);
      if HasText(frame.rows, "depth") {
        SubsequenceMembers(frame.rows, KeepFirst(Strip(t.rows, IndexColumn)));
        HasTextOfMembers(frame.rows, Strip(t.rows, IndexColumn), "depth");
        HasTextOfStrip(t.rows, IndexColumn, "depth");
      }
    }
  }

  /** A frame is returned only when no column the cleaner indexes is missing. */
  lemma MissingColumnNeverReturns(t: Table)
    requires WellFormed(t) && FirstMissing(t.columns).Some?
    ensures !Preprocess(t).Returned?
  {
    InPlaceStepsFacts(t);
    var s := InPlaceSteps(t);
    if s.failure.None? {
      var frame := s.frame;
      assert frame.columns == Without(t.columns, IndexColumn);
      var r1 := Select(frame, DepthBound);
      if r1.Ok? {
        assert r1.value.columns == frame.columns;
      }
    }
  }

  /** With only `table` missing, the call ends in the table mask's KeyError, unless a text depth
      cell that survived steps 1-3 makes the depth mask raise the swallowed TypeError first. */
  lemma MissingTableOutcome(t: Table)
    requires WellFormed(t) && FirstMissing(t.columns) == Some("table")
    ensures Preprocess(t) ==
      if HasText(InPlaceSteps(t).frame.rows, "depth") then ReturnedNone else Raised(KeyError("table"))
  {
    InPlaceStepsFacts(t);
    FilterOutliersFacts(InPlaceSteps(t).frame);
  }

  /** `None` comes back only after a swallowed TypeError: some row holds text in a measured column. */
  lemma NoneOnlyAfterTextCell(t: Table)
    requires WellFormed(t)
    ensures Preprocess(t) == ReturnedNone ==> exists c :: c in Measured && HasText(t.rows, c)
    ensures Preprocess(t) == ReturnedNone ==>
      FirstMissing(t.columns) == None || FirstMissing(t.columns) == Some("table")
  {
    InPlaceStepsFacts(t);
    var s := InPlaceSteps(t);
    if Preprocess(t) == ReturnedNone {
      var frame := s.frame;
      FilterOutliersFacts(frame);
      var c := FilterOutliers(frame).failure.column;
      SubsequenceMembers(frame.rows, KeepFirst(Strip(t.rows, IndexColumn)));
      HasTextOfMembers(frame.rows, Strip(t.rows, IndexColumn), c);
      HasTextOfStrip(t.rows, IndexColumn, c);
    }
  }

  /** A frame whose only column is the index column: after the drop its rows have no cells, so
      pandas' `drop_duplicates` leaves every one of them, and the x drop raises KeyError('x'). */
  lemma IndexOnlyFrame(t: Table)
    requires WellFormed(t) && t.columns == [IndexColumn]
    ensures InPlaceSteps(t) == Stage(Table([], Strip(t.rows, IndexColumn)), Some(KeyError("x")))
    ensures |InPlaceSteps(t).frame.rows| == |t.rows|
    ensures Preprocess(t) == Raised(KeyError("x"))
  {
    InPlaceStepsFacts(t);
    assert FirstMissing(t.columns) == Some("x");
  }

  /** With every required column present and only numbers in the measured columns, a frame is returned. */
  lemma NumericFrameIsReturned(t: Table)
    requires WellFormed(t)
    requires forall c :: c in Required ==> c in t.columns
    requires forall c :: c in Measured ==> !HasText(t.rows, c)
    ensures Preprocess(t).Returned?
  {
    InPlaceStepsFacts(t);
    var frame := InPlaceSteps(t).frame;
    FilterOutliersFacts(frame);
    forall c | c in Measured ensures c in frame.columns && !HasText(frame.rows, c) {
      if HasText(frame.rows, c) {
        SubsequenceMembers(frame.rows, KeepFirst(Strip(t.rows, IndexColumn)));
        HasTextOfMembers(frame.rows, Strip(t.rows, IndexColumn), c);
        HasTextOfStrip(t.rows, IndexColumn, c);
      }
    }
  }

  /** The caller's frame after the call. Without the index column nothing changed; otherwise the
      index column is gone, and so are the duplicates unless no other column is left. Once the
      three zero drops ran, exactly the rows with nonzero dimensions are left. The bound filters
      never touch it: a row it still holds is returned exactly when it is inside the bounds, so
      the outliers stay in it. */
  lemma CallerFrameKeepsOutliers(t: Table)
    requires WellFormed(t)
    ensures var after := InPlaceSteps(t).frame;
      && (IndexColumn !in t.columns ==> after == t)
      && (IndexColumn in t.columns ==>
            && after.columns == Without(t.columns, IndexColumn)
            && IsSubsequence(after.rows, Strip(t.rows, IndexColumn))
            && (after.columns != [] ==> Distinct(after.rows))
            && (after.columns == [] ==> after == Table([], Strip(t.rows, IndexColumn))))
      && (InPlaceSteps(t).failure.None? ==>
            forall r :: r in after.rows <==> r in Strip(t.rows, IndexColumn) && NonZeroDimensions(r))
      && (Preprocess(t).Returned? ==>
            && IsSubsequence(Preprocess(t).frame.rows, after.rows)
            && forall r :: r in after.rows ==> (r in Preprocess(t).frame.rows <==> InsideBounds(r)))
  {
    InPlaceStepsFacts(t);
    var after := InPlaceSteps(t).frame;
    if IndexColumn in t.columns && after.columns != [] {
      SubsequenceOfDistinct(after.rows, KeepFirst(Strip(t.rows, IndexColumn)));
    }
    if Preprocess(t).Returned? {
      ReturnedFrameFacts(t);
    }
  }

  /** A raw record modelled on the first diamond of the data set (carat 0.23, Ideal, E, SI2,
      table 55, y 3.98, z 2.43, price 326), with the index cell, depth and x given. */
  function Diamond(index: real, depth: real, x: real): Row
  {
    map[IndexColumn := Num(index), "carat" := Num(0.23), "cut" := Text("Ideal"),
        "color" := Text("E"), "clarity" := Text("SI2"), "depth" := Num(depth),
        "table" := Num(55.0), "x" := Num(x), "y" := Num(3.98), "z" := Num(2.43),
        "price" := Num(326.0)]
  }

  /** Which of the cleaner's row conditions a diamond record meets once its index cell is gone. */
  lemma DiamondConditions(index: real, depth: real, x: real)
    ensures var r := Diamond(index, depth, x) - {IndexColumn};
      && (NonZeroDimensions(r) <==> x != 0.0)
      && (InsideBounds(r) <==> 50.0 < depth < 75.0 && x < 30.0)
  {
    var r := Diamond(index, depth, x) - {IndexColumn};
    assert r["depth"] == Num(depth) && r["table"] == Num(55.0);
    assert r["x"] == Num(x) && r["y"] == Num(3.98) && r["z"] == Num(2.43);
  }

  /** Whenever a frame is returned for a table holding the sample diamond and three copies of
      it, the sample and its depth-60 copy are in it. The depth-80 copy is not, but stays in the
      caller's frame; the x = 0 copy is gone from both. */
  lemma SampleDiamonds(t: Table)
    requires WellFormed(t)
    requires Diamond(0.0, 61.5, 3.95) in t.rows && Diamond(1.0, 60.0, 3.95) in t.rows
    requires Diamond(2.0, 80.0, 3.95) in t.rows && Diamond(3.0, 61.5, 0.0) in t.rows
    ensures Preprocess(t).Returned? ==> Diamond(0.0, 61.5, 3.95) - {IndexColumn} in Preprocess(t).frame.rows
    ensures Preprocess(t).Returned? ==> Diamond(1.0, 60.0, 3.95) - {IndexColumn} in Preprocess(t).frame.rows
    ensures Preprocess(t).Returned? ==> Diamond(2.0, 80.0, 3.95) - {IndexColumn} !in Preprocess(t).frame.rows
    ensures Preprocess(t).Returned? ==> Diamond(2.0, 80.0, 3.95) - {IndexColumn} in InPlaceSteps(t).frame.rows
    ensures Preprocess(t).Returned? ==> Diamond(3.0, 61.5, 0.0) - {IndexColumn} !in Preprocess(t).frame.rows
    ensures Preprocess(t).Returned? ==> Diamond(3.0, 61.5, 0.0) - {IndexColumn} !in InPlaceSteps(t).frame.rows
  {
    ReturnedFrameFacts(t);
    StripMembers(t.rows, IndexColumn);
    DiamondConditions(0.0, 61.5, 3.95);
    DiamondConditions(1.0, 60.0, 3.95);
    DiamondConditions(2.0, 80.0, 3.95);
    DiamondConditions(3.0, 61.5, 0.0);
  }

  /** The diamond table of the example, with the required columns present and numbers in the
      measured ones: a frame comes back, holding the sample and its depth-60 copy but neither
      the depth-80 copy, which stays in the caller's frame, nor the x = 0 copy. */
  lemma SampleDiamondsReturned(t: Table)
    requires WellFormed(t)
    requires forall c :: c in Required ==> c in t.columns
    requires forall c :: c in Measured ==> !HasText(t.rows, c)
    requires Diamond(0.0, 61.5, 3.95) in t.rows && Diamond(1.0, 60.0, 3.95) in t.rows
    requires Diamond(2.0, 80.0, 3.95) in t.rows && Diamond(3.0, 61.5, 0.0) in t.rows
    ensures Preprocess(t).Returned?
    ensures Diamond(0.0, 61.5, 3.95) - {IndexColumn} in Preprocess(t).frame.rows
    ensures Diamond(1.0, 60.0, 3.95) - {IndexColumn} in Preprocess(t).frame.rows
    ensures Diamond(2.0, 80.0, 3.95) - {IndexColumn} !in Preprocess(t).frame.rows
    ensures Diamond(2.0, 80.0, 3.95) - {IndexColumn} in InPlaceSteps(t).frame.rows
    ensures Diamond(3.0, 61.5, 0.0) - {IndexColumn} !in Preprocess(t).frame.rows
    ensures Diamond(3.0, 61.5, 0.0) - {IndexColumn} !in InPlaceSteps(t).frame.rows
  {
    NumericFrameIsReturned(t);
    SampleDiamonds(t);
  }
}
