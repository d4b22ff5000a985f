/**
 * The column cleaners: each walks the listed columns and rewrites every cell
 * of a column through a per-value rule, or narrows the rows.
 */
module Cleaning {
  import opened Wrappers
  import opened Strings
  import opened Frame

  // ---------------------------------------------------------------------
  // Rewriting columns cell by cell
  // ---------------------------------------------------------------------

  /** `df[c] = df[c].<rule>`: every cell of column `c` goes through `f`. */
  function MapColumn(t: Table, c: string, f: Cell -> Cell): (r: Table)
    ensures r.columns == t.columns && |r.rows| == |t.rows|
    ensures forall i :: 0 <= i < |t.rows| ==> r.rows[i].Keys == t.rows[i].Keys
    ensures forall i, k :: 0 <= i < |t.rows| && k in t.rows[i] ==>
      r.rows[i][k] == if k == c then f(t.rows[i][k]) else t.rows[i][k]
  {
    Table(t.columns, seq(|t.rows|, i requires 0 <= i < |t.rows| =>
      if c in t.rows[i] then t.rows[i][c := f(t.rows[i][c])] else t.rows[i]))
  }

  /**
   * The loop `for col in columns: df[col] = ...`: the table after the
   * columns handled, and the first listed column the table lacks (pandas
   * raises KeyError there, after the earlier columns were already rewritten
   * in place).
   */
  function CleanColumns(t: Table, cols: seq<string>, f: Cell -> Cell): (r: (Table, Option<string>))
    ensures r.0.columns == t.columns && |r.0.rows| == |t.rows|
    ensures forall i :: 0 <= i < |t.rows| ==> r.0.rows[i].Keys == t.rows[i].Keys
    decreases |cols|
  {
    if cols == [] then (t, None)
    else if cols[0] !in t.columns then (t, Some(cols[0]))
    else CleanColumns(MapColumn(t, cols[0], f), cols[1..], f)
  }

  /** The loop itself, proved against CleanColumns. */
  method ForEachColumn(t: Table, cols: seq<string>, f: Cell -> Cell) returns (r: Table, missing: Option<string>)
    ensures (r, missing) == CleanColumns(t, cols, f)
  {
    r := t;
    var i := 0;
    while i < |cols|
      invariant 0 <= i <= |cols|
      invariant CleanColumns(r, cols[i..], f) == CleanColumns(t, cols, f)
    {
      if cols[i] !in r.columns {
        return r, Some(cols[i]);
      }
      assert cols[i..][1..] == cols[i + 1..];
      r := MapColumn(r, cols[i], f);
      i := i + 1;
    }
    return r, None;
  }

  /** The number of leading listed columns the table has. */
  function PresentPrefix(cols: seq<string>, columns: set<string>): (k: nat)
    ensures k <= |cols|
    ensures forall j :: 0 <= j < k ==> cols[j] in columns
    ensures k < |cols| ==> cols[k] !in columns
  {
    if cols == [] || cols[0] !in columns then 0 else 1 + PresentPrefix(cols[1..], columns)
  }

  /** A rule that changes nothing when applied a second time. */
  ghost predicate Idempotent(f: Cell -> Cell) {
    forall c :: f(f(c)) == f(c)
  }

  /** Reference definition: the cells of every column in `s` go through `f`, the rest stay. */
  function Cleaned(t: Table, s: set<string>, f: Cell -> Cell): (r: Table)
    ensures r.columns == t.columns && |r.rows| == |t.rows|
  {
    Table(t.columns, seq(|t.rows|, i requires 0 <= i < |t.rows| =>
      map k | k in t.rows[i] :: if k in s then f(t.rows[i][k]) else t.rows[i][k]))
  }

  lemma CleanedNothing(t: Table, f: Cell -> Cell)
    ensures Cleaned(t, {}, f) == t
  {
    var r := Cleaned(t, {}, f);
    forall i | 0 <= i < |t.rows| ensures r.rows[i] == t.rows[i] {
    }
  }

  /** Rewriting one more column extends the set, whatever the order (for an idempotent rule). */
  lemma CleanedAfterMap(t: Table, c: string, s: set<string>, f: Cell -> Cell)
    requires Idempotent(f)
    ensures Cleaned(MapColumn(t, c, f), s, f) == Cleaned(t, s + {c}, f)
  {
    var a, b := Cleaned(MapColumn(t, c, f), s, f), Cleaned(t, s + {c}, f);
    forall i | 0 <= i < |t.rows| ensures a.rows[i] == b.rows[i] {
      forall k | k in t.rows[i] ensures a.rows[i][k] == b.rows[i][k] {
        if k == c {
          assert f(f(t.rows[i][k])) == f(t.rows[i][k]);
        }
      }
    }
  }

  /** The elements of a list of columns. */
  function Elems(cols: seq<string>): set<string> {
    set c | c in cols
  }

  /**
   * The loop against the reference definition: the columns before the
   * first missing one are rewritten, each once in effect, and the first
   * missing one is reported.
   */
  lemma {:induction false} CleanColumnsIsCleaned(t: Table, cols: seq<string>, f: Cell -> Cell)
    requires Idempotent(f)
    ensures var k := PresentPrefix(cols, t.columns);
      CleanColumns(t, cols, f) == (Cleaned(t, Elems(cols[..k]), f), if k < |cols| then Some(cols[k]) else None)
    decreases |cols|
  {
    var k := PresentPrefix(cols, t.columns);
    if cols == [] || cols[0] !in t.columns {
      assert cols[..k] == [];
      assert Elems(cols[..k]) == {};
      CleanedNothing(t, f);
    } else {
      var t' := MapColumn(t, cols[0], f);
      CleanColumnsIsCleaned(t', cols[1..], f);
      assert PresentPrefix(cols[1..], t'.columns) == k - 1;
      assert Elems(cols[..k]) == Elems(cols[1..][..k - 1]) + {cols[0]} by {
        assert cols[..k] == [cols[0]] + cols[1..][..k - 1];
      }
      CleanedAfterMap(t, cols[0], Elems(cols[1..][..k - 1]), f);
    }
  }

  lemma CleanedTwice(t: Table, s: set<string>, f: Cell -> Cell)
    requires Idempotent(f)
    ensures Cleaned(Cleaned(t, s, f), s, f) == Cleaned(t, s, f)
  {
    var once := Cleaned(t, s, f);
    var twice := Cleaned(once, s, f);
    forall i | 0 <= i < |t.rows| ensures twice.rows[i] == once.rows[i] {
      forall k | k in t.rows[i] ensures twice.rows[i][k] == once.rows[i][k] {
        if k in s {
          assert f(f(t.rows[i][k])) == f(t.rows[i][k]);
        }
      }
    }
  }

  /** A cleaner with an idempotent rule, run twice, gives what it gives once. */
  lemma CleanColumnsIdempotent(t: Table, cols: seq<string>, f: Cell -> Cell)
    requires Idempotent(f)
    ensures CleanColumns(CleanColumns(t, cols, f).0, cols, f) == CleanColumns(t, cols, f)
  {
    var k := PresentPrefix(cols, t.columns);
    CleanColumnsIsCleaned(t, cols, f);
    var once := CleanColumns(t, cols, f).0;
    CleanColumnsIsCleaned(once, cols, f);
    CleanedTwice(t, Elems(cols[..k]), f);
  }

  /**
   * What every cleaner keeps: the column set, the row count, the cells of
   * the other columns, and, for a rule that keeps missing values missing,
   * every missing cell.
   */
  lemma {:induction false} CleanColumnsKeeps(t: Table, cols: seq<string>, f: Cell -> Cell)
    ensures var r := CleanColumns(t, cols, f).0;
      && (forall i, c :: 0 <= i < |t.rows| && c in t.rows[i] && c !in cols ==> r.rows[i][c] == t.rows[i][c])
      && (f(None) == None ==>
            forall i, c :: 0 <= i < |t.rows| && c in t.rows[i] && t.rows[i][c].None? ==> r.rows[i][c].None?)
    decreases |cols|
  {
    if cols != [] && cols[0] in t.columns {
      var t' := MapColumn(t, cols[0], f);
      CleanColumnsKeeps(t', cols[1..], f);
      assert forall c :: c in cols[1..] ==> c in cols;
    }
  }

  /** When every listed column exists, nothing is reported missing. */
  lemma {:induction false} CleanColumnsMissing(t: Table, cols: seq<string>, f: Cell -> Cell)
    ensures CleanColumns(t, cols, f).1 == None <==> forall c :: c in cols ==> c in t.columns
    ensures CleanColumns(t, cols, f).1.Some? ==> CleanColumns(t, cols, f).1.value !in t.columns
    decreases |cols|
  {
    if cols != [] && cols[0] in t.columns {
      CleanColumnsMissing(MapColumn(t, cols[0], f), cols[1..], f);
      assert forall c :: c in cols ==> c == cols[0] || c in cols[1..];
    } else if cols != [] {
      assert cols[0] in cols;
    }
  }

  // ---------------------------------------------------------------------
  // The per-value rules
  // ---------------------------------------------------------------------

  /** `Series.str.strip()`: text is stripped; a missing or non-text value becomes missing. */
  function StripCell(c: Cell): Cell {
    match c
    case Some(Text(s)) => Some(Text(Strip(s)))
    case _ => None
  }

  lemma StripCellIdempotent()
    ensures Idempotent(StripCell)
  {
    forall c ensures StripCell(StripCell(c)) == StripCell(c) {
      if c.Some? && c.value.Text? {
        StripIdempotent(c.value.s);
      }
    }
  }

  /** The two-character sequence backslash, n, which the feed sometimes sends for a newline. */
  predicate EscapedNewlineAt(s: string, i: nat) {
    i + 1 < |s| && s[i] == '\\' && s[i + 1] == 'n'
  }

  /** The regex `(\\n|\n)` replaced by a space, scanning from the left. */
  function Unbreak(s: string): (r: string)
    decreases |s|
  {
    if s == [] then []
    else if EscapedNewlineAt(s, 0) then " " + Unbreak(s[2..])
    else if s[0] == '\n' then " " + Unbreak(s[1..])
    else [s[0]] + Unbreak(s[1..])
  }

  /** Text with neither a newline nor a backslash-n pair. */
  predicate Unbroken(s: string) {
    && (forall i :: 0 <= i < |s| ==> s[i] != '\n')
    && (forall i :: 0 <= i < |s| ==> !EscapedNewlineAt(s, i))
  }

  /**
   * Unbreak leaves no line break: every newline and backslash-n pair became
   * a space, and a kept backslash is never followed by an 'n'.
   */
  lemma {:induction false} UnbreakUnbroken(s: string)
    ensures Unbroken(Unbreak(s))
    ensures |Unbreak(s)| > 0 && Unbreak(s)[0] == 'n' ==> |s| > 0 && s[0] == 'n'
    decreases |s|
  {
    if s != [] {
      var rest := if EscapedNewlineAt(s, 0) then s[2..] else s[1..];
      UnbreakUnbroken(rest);
      var u := Unbreak(s);
      var ur := Unbreak(rest);
      assert u[1..] == ur;
      forall i | 0 <= i < |u| ensures !EscapedNewlineAt(u, i) {
        if i > 0 {
          assert u[i] == ur[i - 1];
          assert !EscapedNewlineAt(ur, i - 1);
          if i + 1 < |u| {
            assert u[i + 1] == ur[i];
          }
        } else if u[0] == '\\' {
          assert s[0] == '\\' && !EscapedNewlineAt(s, 0) && rest == s[1..];
          if |u| > 1 {
            assert u[1] == ur[0];
            assert |s| > 1 && s[1] != 'n';
            assert rest[0] == s[1];
            assert ur[0] != 'n';
          }
        }
      }
      forall i | 0 <= i < |u| ensures u[i] != '\n' {
        if i > 0 {
          assert u[i] == ur[i - 1];
        }
      }
    }
  }

  /** Text without line breaks is left as it is. */
  lemma {:induction false} UnbreakUnchanged(s: string)
    requires Unbroken(s)
    ensures Unbreak(s) == s
    decreases |s|
  {
    if s != [] {
      assert !EscapedNewlineAt(s, 0) && s[0] != '\n';
      assert Unbroken(s[1..]) by {
        forall i | 0 <= i < |s[1..]| ensures !EscapedNewlineAt(s[1..], i) {
          assert !EscapedNewlineAt(s, i + 1);
        }
        forall i | 0 <= i < |s[1..]| ensures s[1..][i] != '\n' {
          assert s[i + 1] != '\n';
        }
      }
      UnbreakUnchanged(s[1..]);
    }
  }

  /** Stripping takes a slice, so it keeps text free of line breaks. */
  lemma StripUnbroken(s: string)
    requires Unbroken(s)
    ensures Unbroken(Strip(s))
  {
    var r := Strip(s);
    var off := |s| - |TrimStart(s)|;
    forall i | 0 <= i < |r| ensures r[i] != '\n' && !EscapedNewlineAt(r, i) {
      assert r[i] == s[off + i];
      assert !EscapedNewlineAt(s, off + i);
      if i + 1 < |r| {
        assert r[i + 1] == s[off + i + 1];
      }
    }
  }

  /** `str.replace(r'(\\n|\n)', ' ', regex=True).str.strip()` on one value. */
  function LinebreakCell(c: Cell): (r: Cell)
    ensures r.Some? ==> r.value.Text? && Unbroken(r.value.s)
  {
    match c
    case Some(Text(s)) =>
      UnbreakUnbroken(s);
      StripUnbroken(Unbreak(s));
      Some(Text(Strip(Unbreak(s))))
    case _ => None
  }

  lemma LinebreakCellIdempotent()
    ensures Idempotent(LinebreakCell)
  {
    forall c ensures LinebreakCell(LinebreakCell(c)) == LinebreakCell(c) {
      if c.Some? && c.value.Text? {
        var once := LinebreakCell(c).value.s;
        UnbreakUnchanged(once);
        StripIdempotent(Unbreak(c.value.s));
      }
    }
  }

  /** `astype('string')`: missing stays missing, a number becomes its decimal text. */
  function ToStringCell(c: Cell): (r: Cell)
    ensures r.None? <==> c.None?
    ensures r.Some? ==> r.value.Text? && r.value.s == Show(c.value)
  {
    match c
    case None => None
    case Some(v) => Some(Text(Show(v)))
  }

  lemma ToStringCellIdempotent()
    ensures Idempotent(ToStringCell)
  {
  }

  /**
   * `pd.to_datetime(..., errors='coerce')` for one value, with the format
   * inference or the fixed '%H:%M:%S' format abstracted as `parse`: a value
   * that does not parse becomes missing (NaT) instead of raising.
   */
  function CoerceCell(parse: Value -> Option<Value>, c: Cell): (r: Cell)
    ensures c.None? ==> r.None?
    ensures c.Some? ==> r == parse(c.value)
  {
    match c
    case None => None
    case Some(v) => parse(v)
  }

  /** The coercion rule as a column rule. */
  function Coercion(parse: Value -> Option<Value>): Cell -> Cell {
    c => CoerceCell(parse, c)
  }

  // ---------------------------------------------------------------------
  // The cleaners
  // ---------------------------------------------------------------------

  /** `remove_whitespace`. */
  method RemoveWhitespace(t: Table, cols: seq<string>) returns (r: Table, missing: Option<string>)
    ensures (r, missing) == CleanColumns(t, cols, StripCell)
  {
    r, missing := ForEachColumn(t, cols, StripCell);
  }

  /** `remove_linebreaks`. */
  method RemoveLinebreaks(t: Table, cols: seq<string>) returns (r: Table, missing: Option<string>)
    ensures (r, missing) == CleanColumns(t, cols, LinebreakCell)
  {
    r, missing := ForEachColumn(t, cols, LinebreakCell);
  }

  /** `object_tostring`. */
  method ObjectToString(t: Table, cols: seq<string>) returns (r: Table, missing: Option<string>)
    ensures (r, missing) == CleanColumns(t, cols, ToStringCell)
  {
    r, missing := ForEachColumn(t, cols, ToStringCell);
  }

  /** `object_to_date` and `object_to_time`: the same loop with a date or a time parser. */
  method ObjectToParsed(t: Table, cols: seq<string>, parse: Value -> Option<Value>) returns (r: Table, missing: Option<string>)
    ensures (r, missing) == CleanColumns(t, cols, Coercion(parse))
  {
    r, missing := ForEachColumn(t, cols, Coercion(parse));
  }

  /**
   * A cell of a listed column after remove_linebreaks holds no line break,
   * when every listed column exists.
   */
  lemma LinebreaksRemoved(t: Table, cols: seq<string>, i: nat, c: string)
    requires forall x :: x in cols ==> x in t.columns
    requires i < |t.rows| && c in t.rows[i] && c in cols
    ensures var v := CleanColumns(t, cols, LinebreakCell).0.rows[i][c];
      v.None? || (v.value.Text? && Unbroken(v.value.s))
  {
    LinebreakCellIdempotent();
    CleanColumnsIsCleaned(t, cols, LinebreakCell);
    assert PresentPrefix(cols, t.columns) == |cols|;
    assert cols[..|cols|] == cols;
  }

  /** A cell of a listed column after remove_whitespace is stripped text or missing. */
  lemma WhitespaceRemoved(t: Table, cols: seq<string>, i: nat, c: string)
    requires forall x :: x in cols ==> x in t.columns
    requires i < |t.rows| && c in t.rows[i] && c in cols
    ensures var v := CleanColumns(t, cols, StripCell).0.rows[i][c];
      && (v.None? || (v.value.Text? && Strip(v.value.s) == v.value.s))
      && (t.rows[i][c].Some? && t.rows[i][c].value.Text? ==> v == Some(Text(Strip(t.rows[i][c].value.s))))
  {
    StripCellIdempotent();
    CleanColumnsIsCleaned(t, cols, StripCell);
    assert PresentPrefix(cols, t.columns) == |cols|;
    assert cols[..|cols|] == cols;
    var v := t.rows[i][c];
    if v.Some? && v.value.Text? {
      StripIdempotent(v.value.s);
    }
  }

  /** A coercion keeps the row count and turns an unparsable value into a missing one. */
  lemma CoercionNeverAborts(t: Table, cols: seq<string>, parse: Value -> Option<Value>, i: nat, c: string)
    requires forall x :: x in cols ==> x in t.columns
    requires i < |t.rows| && c in t.rows[i] && c in cols
    requires t.rows[i][c].Some? && parse(t.rows[i][c].value).None?
    ensures CleanColumns(t, cols, Coercion(parse)).1.None?
    ensures |CleanColumns(t, cols, Coercion(parse)).0.rows| == |t.rows|
    ensures CleanColumns(t, cols, Coercion(parse)).0.rows[i][c].None?
  {
    CleanColumnsMissing(t, cols, Coercion(parse));
    CleanColumnsKeeps(t, cols, Coercion(parse));
    CoercedCell(t, cols, parse, i, c);
  }

  /** Before the first missing column, the last write to column `c` wins. */
  lemma {:induction false} CoercedCell(t: Table, cols: seq<string>, parse: Value -> Option<Value>, i: nat, c: string)
    requires forall x :: x in cols ==> x in t.columns
    requires i < |t.rows| && c in t.rows[i] && c in cols
    requires t.rows[i][c].Some? && parse(t.rows[i][c].value).None?
    ensures CleanColumns(t, cols, Coercion(parse)).0.rows[i][c].None?
    decreases |cols|
  {
    var f := Coercion(parse);
    var t' := MapColumn(t, cols[0], f);
    CleanColumnsKeeps(t', cols[1..], f);
    if cols[0] == c {
      assert t'.rows[i][c].None?;
    } else {
      assert c in cols[1..];
      assert t'.rows[i][c] == t.rows[i][c];
      CoercedCell(t', cols[1..], parse, i, c);
    }
  }

  // ---------------------------------------------------------------------
  // remove_nulls
  // ---------------------------------------------------------------------

  /** The rows whose cell in column `c` is present, in their order. */
  function KeepPresent(rows: seq<Row>, c: string): (r: seq<Row>)
    ensures |r| <= |rows|
    ensures forall x :: x in r ==> x in rows && Get(x, c).Some?
    decreases |rows|
  {
    if rows == [] then []
    else (if Get(rows[0], c).Some? then [rows[0]] else []) + KeepPresent(rows[1..], c)
  }

  /** `for col in columns: df = df[df[col].notnull()]`, failing at the first column the table lacks. */
  function NonNull(t: Table, cols: seq<string>): Result<Table, string>
    decreases |cols|
  {
    if cols == [] then Success(t)
    else if cols[0] !in t.columns then Failure(cols[0])
    else NonNull(Table(t.columns, KeepPresent(t.rows, cols[0])), cols[1..])
  }

  /**
   * `remove_nulls`. The loop rebinds a local frame, so when a column is
   * missing the caller's frame is left as it was and only the error is seen.
   */
  method RemoveNulls(t: Table, cols: seq<string>) returns (r: Result<Table, string>)
    ensures r == NonNull(t, cols)
  {
    var cur := t;
    var i := 0;
    while i < |cols|
      invariant 0 <= i <= |cols|
      invariant NonNull(cur, cols[i..]) == NonNull(t, cols)
    {
      if cols[i] !in cur.columns {
        return Failure(cols[i]);
      }
      assert cols[i..][1..] == cols[i + 1..];
      cur := Table(cur.columns, KeepPresent(cur.rows, cols[i]));
      i := i + 1;
    }
    return Success(cur);
  }

  /** Every listed cell of the row is present. */
  predicate Complete(row: Row, cols: seq<string>) {
    forall c :: c in cols ==> Get(row, c).Some?
  }

  /** Reference definition: the complete rows, in their order. */
  function Completes(rows: seq<Row>, cols: seq<string>): seq<Row>
    decreases |rows|
  {
    if rows == [] then []
    else (if Complete(rows[0], cols) then [rows[0]] else []) + Completes(rows[1..], cols)
  }

  lemma {:induction false} KeepPresentThenCompletes(rows: seq<Row>, c: string, cs: seq<string>)
    ensures Completes(KeepPresent(rows, c), cs) == Completes(rows, [c] + cs)
    decreases |rows|
  {
    if rows != [] {
      KeepPresentThenCompletes(rows[1..], c, cs);
      var x := rows[0];
      assert Complete(x, [c] + cs) <==> Get(x, c).Some? && Complete(x, cs) by {
        assert forall d :: d in [c] + cs <==> d == c || d in cs;
      }
      var rest := KeepPresent(rows[1..], c);
      if Get(x, c).Some? {
        assert KeepPresent(rows, c) == [x] + rest;
        assert KeepPresent(rows, c)[1..] == rest;
      } else {
        assert KeepPresent(rows, c) == rest;
      }
    }
  }

  lemma CompletesNothing(rows: seq<Row>)
    ensures Completes(rows, []) == rows
  {
    if rows != [] {
      CompletesNothing(rows[1..]);
    }
  }

  /**
   * remove_nulls against the reference definition: with every listed column
   * present it keeps exactly the complete rows, in order; otherwise it
   * fails, reporting the first listed column the table lacks.
   */
  lemma {:induction false} NonNullIsCompletes(t: Table, cols: seq<string>)
    ensures (forall c :: c in cols ==> c in t.columns) ==>
      NonNull(t, cols) == Success(Table(t.columns, Completes(t.rows, cols)))
    ensures NonNull(t, cols).Failure? ==>
      NonNull(t, cols).error in cols && NonNull(t, cols).error !in t.columns
    ensures (exists c :: c in cols && c !in t.columns) ==> NonNull(t, cols).Failure?
    ensures forall k :: 0 <= k < |cols| && cols[k] !in t.columns && (forall j :: 0 <= j < k ==> cols[j] in t.columns) ==>
      NonNull(t, cols) == Failure(cols[k])
    decreases |cols|
  {
    if cols == [] {
      CompletesNothing(t.rows);
    } else if cols[0] in t.columns {
      NonNullIsCompletes(Table(t.columns, KeepPresent(t.rows, cols[0])), cols[1..]);
      KeepPresentThenCompletes(t.rows, cols[0], cols[1..]);
      assert [cols[0]] + cols[1..] == cols;
      assert forall c :: c in cols[1..] ==> c in cols;
    }
  }

  /** The complete rows are a selection of the input: each kept row is complete, each complete row is kept. */
  lemma {:induction false} CompletesSelects(rows: seq<Row>, cols: seq<string>)
    ensures forall x :: x in Completes(rows, cols) ==> x in rows && Complete(x, cols)
    ensures forall x :: x in rows && Complete(x, cols) ==> x in Completes(rows, cols)
    decreases |rows|
  {
    if rows != [] {
      CompletesSelects(rows[1..], cols);
      assert forall x :: x in rows ==> x == rows[0] || x in rows[1..];
    }
  }

  /** Removing nulls a second time removes nothing. */
  lemma {:induction false} CompletesIdempotent(rows: seq<Row>, cols: seq<string>)
    ensures Completes(Completes(rows, cols), cols) == Completes(rows, cols)
    decreases |rows|
  {
    if rows != [] {
      CompletesIdempotent(rows[1..], cols);
      var rest := Completes(rows[1..], cols);
      if Complete(rows[0], cols) {
        assert Completes(rows, cols) == [rows[0]] + rest;
        assert Completes(rows, cols)[1..] == rest;
      } else {
        assert Completes(rows, cols) == rest;
      }
    }
  }

  // ---------------------------------------------------------------------
  // remove_duplicates
  // ---------------------------------------------------------------------

  /** The values of the subset columns, which decide whether two rows are duplicates. */
  function Key(row: Row, subset: seq<string>): (k: seq<Cell>)
    ensures |k| == |subset|
  {
    seq(|subset|, i requires 0 <= i < |subset| => Get(row, subset[i]))
  }

  function KeysOf(rows: seq<Row>, subset: seq<string>): set<seq<Cell>> {
    set x | x in rows :: Key(x, subset)
  }

  /** `keep='first'`: a row survives when no earlier row (nor a key in `seen`) has its key. */
  function Dedup(rows: seq<Row>, subset: seq<string>, seen: set<seq<Cell>>): (r: seq<Row>)
    ensures forall x :: x in r ==> x in rows && Key(x, subset) !in seen
    decreases |rows|
  {
    if rows == [] then []
    else if Key(rows[0], subset) in seen then Dedup(rows[1..], subset, seen)
    else [rows[0]] + Dedup(rows[1..], subset, seen + {Key(rows[0], subset)})
  }

  /** Row `i` is the first row with its key, and that key is not in `seen`. */
  predicate FirstOfKey(rows: seq<Row>, subset: seq<string>, seen: set<seq<Cell>>, i: nat)
    requires i < |rows|
  {
    Key(rows[i], subset) !in seen && forall j :: 0 <= j < i ==> Key(rows[j], subset) != Key(rows[i], subset)
  }

  /** The positions from `lo` on that keep='first' keeps, in increasing order: a reference for Dedup. */
  function FirstPositions(rows: seq<Row>, subset: seq<string>, seen: set<seq<Cell>>, lo: nat): (idx: seq<nat>)
    requires lo <= |rows|
    ensures forall k :: 0 <= k < |idx| ==> lo <= idx[k] < |rows| && FirstOfKey(rows, subset, seen, idx[k])
    ensures forall a, b :: 0 <= a < b < |idx| ==> idx[a] < idx[b]
    ensures forall i :: lo <= i < |rows| && FirstOfKey(rows, subset, seen, i) ==> i in idx
    decreases |rows| - lo
  {
    if lo == |rows| then []
    else (if FirstOfKey(rows, subset, seen, lo) then [lo] else []) + FirstPositions(rows, subset, seen, lo + 1)
  }

  /** The rows at the given positions, in that order. */
  function RowsAt(rows: seq<Row>, idx: seq<nat>): (r: seq<Row>)
    requires forall k :: 0 <= k < |idx| ==> idx[k] < |rows|
    ensures |r| == |idx| && forall k :: 0 <= k < |idx| ==> r[k] == rows[idx[k]]
  {
    seq(|idx|, k requires 0 <= k < |idx| => rows[idx[k]])
  }

  /** Why drop_duplicates refuses a subset. */
  datatype SubsetError = MissingColumns(missing: set<string>) | NoColumns

  /**
   * `df.drop_duplicates(subset=subset_columns)`: a frame without rows or
   * columns comes back as it is; a subset naming absent columns raises a
   * KeyError naming them all; an empty subset leaves nothing to compare on
   * and raises; otherwise the first row of each key is kept.
   */
  function RemoveDuplicates(t: Table, subset: seq<string>): (r: Result<Table, SubsetError>)
    ensures Empty(t) ==> r == Success(t)
    ensures !Empty(t) && (exists c :: c in subset && c !in t.columns) ==>
      r.Failure? && r.error.MissingColumns? && r.error.missing == (set c | c in subset && c !in t.columns)
    ensures !Empty(t) && subset == [] ==> r == Failure(NoColumns)
    ensures !Empty(t) && |subset| > 0 && (forall c :: c in subset ==> c in t.columns) ==> r.Success?
    ensures r.Success? ==> r.value.columns == t.columns
    ensures r.Success? && !Empty(t) ==> |subset| > 0 && forall c :: c in subset ==> c in t.columns
    ensures r.Success? && !Empty(t) ==> r.value.rows == RowsAt(t.rows, FirstPositions(t.rows, subset, {}, 0))
  {
    if Empty(t) then Success(t)
    else if exists c :: c in subset && c !in t.columns then
      Failure(MissingColumns(set c | c in subset && c !in t.columns))
    else if subset == [] then Failure(NoColumns)
    else
      DedupInOrder(t.rows, subset, {});
      Success(Table(t.columns, Dedup(t.rows, subset, {})))
  }

  /** Row `i` is the first of its key exactly when its key is neither seen nor carried by an earlier row. */
  lemma FirstOfKeyIsUnseen(rows: seq<Row>, subset: seq<string>, seen: set<seq<Cell>>, i: nat)
    requires i < |rows|
    ensures FirstOfKey(rows, subset, seen, i) <==> Key(rows[i], subset) !in seen + KeysOf(rows[..i], subset)
  {
    var k := Key(rows[i], subset);
    if k in KeysOf(rows[..i], subset) {
      var x :| x in rows[..i] && Key(x, subset) == k;
      var j :| 0 <= j < i && rows[..i][j] == x;
      assert rows[j] == x;
    } else {
      forall j | 0 <= j < i ensures Key(rows[j], subset) != k {
        assert rows[j] == rows[..i][j];
      }
    }
  }

  /** The keys seen after position `lo`: those before it and the key of row `lo`. */
  lemma SeenThrough(rows: seq<Row>, subset: seq<string>, seen: set<seq<Cell>>, lo: nat)
    requires lo < |rows|
    ensures seen + KeysOf(rows[..lo + 1], subset) == seen + KeysOf(rows[..lo], subset) + {Key(rows[lo], subset)}
  {
    assert rows[..lo + 1] == rows[..lo] + [rows[lo]];
    assert forall y :: y in rows[..lo + 1] <==> y in rows[..lo] || y == rows[lo];
  }

  lemma RowsAtCons(rows: seq<Row>, i: nat, tail: seq<nat>)
    requires i < |rows| && forall k :: 0 <= k < |tail| ==> tail[k] < |rows|
    ensures RowsAt(rows, [i] + tail) == [rows[i]] + RowsAt(rows, tail)
  {
  }

  lemma DedupStepKeep(rows: seq<Row>, subset: seq<string>, before: set<seq<Cell>>, lo: nat)
    requires lo < |rows| && Key(rows[lo], subset) !in before
    ensures Dedup(rows[lo..], subset, before) == [rows[lo]] + Dedup(rows[lo + 1..], subset, before + {Key(rows[lo], subset)})
  {
    assert rows[lo..][0] == rows[lo] && rows[lo..][1..] == rows[lo + 1..];
  }

  lemma DedupStepSkip(rows: seq<Row>, subset: seq<string>, before: set<seq<Cell>>, lo: nat)
    requires lo < |rows| && Key(rows[lo], subset) in before
    ensures Dedup(rows[lo..], subset, before) == Dedup(rows[lo + 1..], subset, before)
  {
    assert rows[lo..][0] == rows[lo] && rows[lo..][1..] == rows[lo + 1..];
  }

  /** From position `lo` on, Dedup with the keys seen so far keeps exactly the reference positions. */
  lemma {:induction false} DedupFrom(rows: seq<Row>, subset: seq<string>, seen: set<seq<Cell>>, lo: nat)
    requires lo <= |rows|
    ensures Dedup(rows[lo..], subset, seen + KeysOf(rows[..lo], subset)) == RowsAt(rows, FirstPositions(rows, subset, seen, lo))
    decreases |rows| - lo
  {
    if lo < |rows| {
      var before := seen + KeysOf(rows[..lo], subset);
      var k := Key(rows[lo], subset);
      var tail := FirstPositions(rows, subset, seen, lo + 1);
      FirstOfKeyIsUnseen(rows, subset, seen, lo);
      SeenThrough(rows, subset, seen, lo);
      DedupFrom(rows, subset, seen, lo + 1);
      if FirstOfKey(rows, subset, seen, lo) {
        DedupStepKeep(rows, subset, before, lo);
        RowsAtCons(rows, lo, tail);
      } else {
        DedupStepSkip(rows, subset, before, lo);
        assert before + {k} == before;
        assert FirstPositions(rows, subset, seen, lo) == [] + tail;
      }
    } else {
      assert rows[lo..] == [];
    }
  }

  /** keep='first' keeps the first row of each unseen key, in input order. */
  lemma DedupInOrder(rows: seq<Row>, subset: seq<string>, seen: set<seq<Cell>>)
    ensures Dedup(rows, subset, seen) == RowsAt(rows, FirstPositions(rows, subset, seen, 0))
  {
    DedupFrom(rows, subset, seen, 0);
    assert rows[0..] == rows;
    assert rows[..0] == [];
    assert KeysOf([], subset) == {};
    assert seen + {} == seen;
  }

  /** No two surviving rows share a key. */
  lemma {:induction false} DedupDistinct(rows: seq<Row>, subset: seq<string>, seen: set<seq<Cell>>)
    ensures forall i, j :: 0 <= i < j < |Dedup(rows, subset, seen)| ==>
      Key(Dedup(rows, subset, seen)[i], subset) != Key(Dedup(rows, subset, seen)[j], subset)
    decreases |rows|
  {
    if rows != [] && Key(rows[0], subset) !in seen {
      var k := Key(rows[0], subset);
      DedupDistinct(rows[1..], subset, seen + {k});
      var tail := Dedup(rows[1..], subset, seen + {k});
      forall j | 0 <= j < |tail| ensures Key(tail[j], subset) != k {
        assert tail[j] in tail;
      }
      ConsDistinct(rows[0], tail, subset);
    } else if rows != [] {
      DedupDistinct(rows[1..], subset, seen);
    }
  }

  /** A row whose key no row of a key-distinct list has keeps the list key-distinct when put in front. */
  lemma ConsDistinct(x: Row, t: seq<Row>, subset: seq<string>)
    requires forall i, j :: 0 <= i < j < |t| ==> Key(t[i], subset) != Key(t[j], subset)
    requires forall j :: 0 <= j < |t| ==> Key(t[j], subset) != Key(x, subset)
    ensures forall i, j :: 0 <= i < j < |[x] + t| ==> Key(([x] + t)[i], subset) != Key(([x] + t)[j], subset)
  {
    var r := [x] + t;
    forall i, j | 0 <= i < j < |r| ensures Key(r[i], subset) != Key(r[j], subset) {
      assert r[j] == t[j - 1];
      if 0 < i {
        assert r[i] == t[i - 1];
      }
    }
  }

  /** Every key of the input survives, save those already seen. */
  lemma {:induction false} DedupKeys(rows: seq<Row>, subset: seq<string>, seen: set<seq<Cell>>)
    ensures KeysOf(Dedup(rows, subset, seen), subset) == KeysOf(rows, subset) - seen
    decreases |rows|
  {
    if rows != [] {
      var k := Key(rows[0], subset);
      var seen' := if k in seen then seen else seen + {k};
      DedupKeys(rows[1..], subset, seen');
      assert forall x :: x in rows <==> x == rows[0] || x in rows[1..];
      assert KeysOf(rows, subset) == {k} + KeysOf(rows[1..], subset);
      if k !in seen {
        var tail := Dedup(rows[1..], subset, seen');
        assert forall x :: x in [rows[0]] + tail <==> x == rows[0] || x in tail;
        assert KeysOf([rows[0]] + tail, subset) == {k} + KeysOf(tail, subset);
      }
    }
  }

  /** The first row of the input with key `k`. */
  function FirstWithKey(rows: seq<Row>, subset: seq<string>, k: seq<Cell>): (r: Row)
    requires k in KeysOf(rows, subset)
    ensures r in rows && Key(r, subset) == k
    decreases |rows|
  {
    if Key(rows[0], subset) == k then rows[0]
    else
      assert forall x :: x in rows ==> x == rows[0] || x in rows[1..];
      FirstWithKey(rows[1..], subset, k)
  }

  /** Each surviving row is the first row of the input carrying its key. */
  lemma {:induction false} DedupKeepsFirst(rows: seq<Row>, subset: seq<string>, seen: set<seq<Cell>>)
    ensures forall x :: x in Dedup(rows, subset, seen) ==>
      Key(x, subset) in KeysOf(rows, subset) && x == FirstWithKey(rows, subset, Key(x, subset))
    decreases |rows|
  {
    if rows != [] {
      var k := Key(rows[0], subset);
      var seen' := if k in seen then seen else seen + {k};
      DedupKeepsFirst(rows[1..], subset, seen');
      forall x | x in Dedup(rows, subset, seen)
        ensures Key(x, subset) in KeysOf(rows, subset) && x == FirstWithKey(rows, subset, Key(x, subset))
      {
        if x in Dedup(rows[1..], subset, seen') {
          assert Key(x, subset) != k;
          assert Key(x, subset) in KeysOf(rows[1..], subset);
          var y :| y in rows[1..] && Key(y, subset) == Key(x, subset);
          assert y in rows;
        } else {
          assert x == rows[0];
          assert rows[0] in rows;
        }
      }
    }
  }

  /** Rows whose keys are all distinct and unseen pass through unchanged. */
  lemma {:induction false} DedupOfDistinct(rows: seq<Row>, subset: seq<string>, seen: set<seq<Cell>>)
    requires forall i :: 0 <= i < |rows| ==> Key(rows[i], subset) !in seen
    requires forall i, j :: 0 <= i < j < |rows| ==> Key(rows[i], subset) != Key(rows[j], subset)
    ensures Dedup(rows, subset, seen) == rows
    decreases |rows|
  {
    if rows != [] {
      var k := Key(rows[0], subset);
      var tail := rows[1..];
      forall i | 0 <= i < |tail| ensures Key(tail[i], subset) !in seen + {k} {
        assert tail[i] == rows[i + 1];
      }
      forall i, j | 0 <= i < j < |tail| ensures Key(tail[i], subset) != Key(tail[j], subset) {
        assert tail[i] == rows[i + 1] && tail[j] == rows[j + 1];
      }
      DedupOfDistinct(tail, subset, seen + {k});
      assert rows == [rows[0]] + tail;
    }
  }

  /** Removing duplicates a second time removes nothing. */
  lemma DedupIdempotent(rows: seq<Row>, subset: seq<string>)
    ensures Dedup(Dedup(rows, subset, {}), subset, {}) == Dedup(rows, subset, {})
  {
    DedupDistinct(rows, subset, {});
    DedupOfDistinct(Dedup(rows, subset, {}), subset, {});
  }

  /**
   * drop_duplicates with a non-empty subset of present columns: it
   * succeeds, and the surviving rows are the input rows at the first
   * position of each key, in input order; they have pairwise distinct keys,
   * every key of the input survives, and the survivor of each key is the
   * first row that carries it.
   */
  lemma RemoveDuplicatesKeepsFirst(t: Table, subset: seq<string>)
    requires |subset| > 0 && forall c :: c in subset ==> c in t.columns
    ensures RemoveDuplicates(t, subset).Success?
    ensures var r := RemoveDuplicates(t, subset).value.rows;
      && (t.rows != [] ==> r == RowsAt(t.rows, FirstPositions(t.rows, subset, {}, 0)))
      && (forall i, j :: 0 <= i < j < |r| ==> Key(r[i], subset) != Key(r[j], subset))
      && KeysOf(r, subset) == KeysOf(t.rows, subset)
      && (forall x :: x in r ==> Key(x, subset) in KeysOf(t.rows, subset) && x == FirstWithKey(t.rows, subset, Key(x, subset)))
  {
    assert subset[0] in t.columns;
    if !Empty(t) {
      DedupDistinct(t.rows, subset, {});
      DedupKeys(t.rows, subset, {});
      DedupKeepsFirst(t.rows, subset, {});
    }
  }
}
