/**
 * The data-loading half of the analyser in `static/analisar_dados_v5.py`
 * (`AnalisadorInteligente`): value normalisation, header derivation, the
 * search for the status column, the cleaning and relabelling of status
 * values, the per-status counts and the per-sheet metrics built while a
 * workbook is loaded.
 *
 * A data frame is reduced to what the code reads from it: the list of
 * status values of its rows.
 */
module Analyser {
  import opened Wrappers
  import opened Text
  import opened Cells
  import opened Tally

  /** `status_especificos`: the eleven statuses every report lists. */
  const Specific: seq<string> := [
    "VERIFICADO", "ANÁLISE", "PENDENTE", "PRIORIDADE",
    "PRIORIDADE TOTAL", "APROVADO", "APREENDIDO", "CANCELADO",
    "QUITADO", "OUTROS ACORDOS", "M.ENCAMINHADA"
  ]

  const SpecificSet: set<string> := set s | s in Specific

  lemma SpecificDistinct()
    ensures forall i, j :: 0 <= i < j < |Specific| ==> Specific[i] != Specific[j]
  {
  }

  // ---------------------------------------------------------------------
  // normalizar_valor and column names
  // ---------------------------------------------------------------------

  /**
   * `normalizar_valor`: a string is stripped and upper-cased; any other
   * value (numbers included) is rendered with `str()`.
   */
  function Normalize(v: Cell): (r: string)
    ensures v.Str? ==> Trimmed(r) && Upper(r) == r
    ensures !v.Str? ==> r == Render(v)
  {
    if v.Str? then
      UpperKeepsTrimmed(Strip(v.s));
      UpperIdempotent(Strip(v.s));
      Upper(Strip(v.s))
    else Render(v)
  }

  /** Normalising an already normalised string changes nothing. */
  lemma NormalizeIdempotent(s: string)
    ensures Normalize(Str(Normalize(Str(s)))) == Normalize(Str(s))
  {
    var r := Normalize(Str(s));
    StripOfTrimmed(r);
  }

  /** A header cell: its stripped `str()` when truthy, `Col<i>` otherwise. */
  function Header(i: nat, c: Cell): string {
    if Truthy(c) then Strip(Render(c)) else "Col" + NatToString(i)
  }

  /** The name of column `i` after `normalizar_valor`. */
  function ColumnName(i: nat, c: Cell): (r: string)
    ensures Trimmed(r) && Upper(r) == r
  {
    Normalize(Str(Header(i, c)))
  }

  lemma {:induction false} UpperOfDigits(d: string)
    requires forall k :: 0 <= k < |d| ==> IsDigit(d[k])
    ensures Upper(d) == d
  {
    if d != [] {
      UpperOfDigits(d[1..]);
      assert d == [d[0]] + d[1..];
    }
  }

  /** A falsy header cell (empty, `0`, `False`, `""`) names its column `COL<i>`. */
  lemma FalsyHeaderName(i: nat, c: Cell)
    requires !Truthy(c)
    ensures ColumnName(i, c) == "COL" + NatToString(i)
  {
    var d := NatToString(i);
    assert Header(i, c) == "Col" + d;
    StripOfColumn(d);
    UpperOfColumn(d);
  }

  lemma StripOfColumn(d: string)
    requires d != [] && IsDigit(d[|d| - 1])
    ensures Strip("Col" + d) == "Col" + d
  {
    var h := "Col" + d;
    assert h[0] == 'C' && h[|h| - 1] == d[|d| - 1];
    StripOfTrimmed(h);
  }

  lemma UpperOfColumn(d: string)
    requires forall k :: 0 <= k < |d| ==> IsDigit(d[k])
    ensures Upper("Col" + d) == "COL" + d
  {
    UpperAppend("Col", d);
    UpperOfDigits(d);
    UpperOfCol();
  }

  lemma UpperOfCol()
    ensures Upper("Col") == "COL"
  {
    assert "Col"[1..] == "ol" && "ol"[1..] == "l" && "l"[1..] == [];
    assert UpperChar('C') == "C" && UpperChar('o') == "O" && UpperChar('l') == "L";
    assert Upper("l") == "L";
    assert Upper("ol") == "OL";
  }

  /** The three markers whose presence makes a column the status column. */
  predicate IsStatusName(col: string) {
    Find(col, "SITUACAO") || Find(col, "STATUS") || Find(col, "SITUAÇÃO")
  }

  /** `next(col for col in columns if ...)`: the first status column, if any. */
  function StatusColumn(cols: seq<string>): (r: Option<nat>)
    ensures r.None? <==> forall k :: 0 <= k < |cols| ==> !IsStatusName(cols[k])
    ensures r.Some? ==> r.value < |cols| && IsStatusName(cols[r.value])
                        && forall k :: 0 <= k < r.value ==> !IsStatusName(cols[k])
  {
    if cols == [] then None
    else if IsStatusName(cols[0]) then Some(0)
    else
      match StatusColumn(cols[1..])
      case None => None
      case Some(k) => Some(k + 1)
  }

  // ---------------------------------------------------------------------
  // Status cleaning and relabelling
  // ---------------------------------------------------------------------

  /** `mapeamento_status`. */
  const Relabel: map<string, string> := map[
    "VERIFICADO" := "VERIFICADO",
    "ANÁLISE" := "ANÁLISE",
    "ANALISE" := "ANÁLISE",
    "PENDENTE" := "PENDENTE",
    "PRIORIDADE" := "PRIORIDADE",
    "PRIORIDADE TOTAL" := "PRIORIDADE TOTAL",
    "APROVADO" := "APROVADO",
    "APREENDIDO" := "APREENDIDO",
    "CANCELADO" := "CANCELADO",
    "QUITADO" := "QUITADO",
    "OUTROS ACORDOS" := "OUTROS ACORDOS",
    "M.ENCAMINHADA" := "M.ENCAMINHADA"
  ]

  /** `mapeamento_status.get(x, x)`. */
  function MapStatus(x: string): string {
    if x in Relabel then Relabel[x] else x
  }

  /** The relabelling moves exactly one label, and never away from a specific status. */
  lemma MapStatusMoves(x: string)
    ensures MapStatus(x) != x <==> x == "ANALISE"
    ensures x == "ANALISE" ==> MapStatus(x) == "ANÁLISE"
    ensures x in SpecificSet ==> MapStatus(x) == x
  {
  }

  lemma MapStatusIdempotent(x: string)
    ensures MapStatus(MapStatus(x)) == MapStatus(x)
  {
  }

  /**
   * `fillna('PENDENTE').astype(str).str.upper().str.strip()` for one cell,
   * taken as its column's dtype holds it (`ColumnCell`): a missing value
   * reads `PENDENTE`, any other is rendered, upper-cased and stripped.
   */
  function CleanStatus(c: Cell): (r: string)
    ensures Trimmed(r) && Upper(r) == r
    ensures IsNa(c) ==> r == "PENDENTE"
  {
    if IsNa(c) then
      PendenteClean();
      "PENDENTE"
    else
      var s := Render(c);
      StripUpperCommute(s);
      UpperIdempotent(Strip(s));
      Strip(Upper(s))
  }

  lemma PendenteClean()
    ensures Trimmed("PENDENTE") && Upper("PENDENTE") == "PENDENTE"
  {
    assert Plain("PENDENTE");
    PlainClean("PENDENTE");
  }

  lemma PendenteOfEmpty()
    ensures StatusValue(Empty) == "PENDENTE"
  {
    assert CleanStatus(Empty) == "PENDENTE";
    MapStatusMoves("PENDENTE");
  }

  lemma AnaliseClean()
    ensures Trimmed("ANÁLISE") && Upper("ANÁLISE") == "ANÁLISE"
  {
    assert Plain("ANÁLISE");
    PlainClean("ANÁLISE");
  }

  /** The STATUS value a row ends up with. */
  function StatusValue(c: Cell): (r: string)
    ensures Trimmed(r) && Upper(r) == r && r != "ANALISE"
  {
    var x := CleanStatus(c);
    MapStatusMoves(x);
    AnaliseClean();
    MapStatus(x)
  }

  /** Cleaning a value that is already a STATUS value gives it back. */
  lemma StatusValueIdempotent(c: Cell)
    ensures StatusValue(Str(StatusValue(c))) == StatusValue(c)
  {
    var r := StatusValue(c);
    StripOfTrimmed(r);
    MapStatusIdempotent(CleanStatus(c));
  }

  // ---------------------------------------------------------------------
  // contar_status_especificos
  // ---------------------------------------------------------------------

  /**
   * `contar_status_especificos`, on the STATUS column of a frame (`None`
   * when the frame has none): `{}` for an empty frame or one without the
   * column, otherwise each specific status with its number of rows.
   */
  function CountSpecific(status: Option<seq<string>>): (r: map<string, nat>)
    ensures status.None? || status.value == [] ==> r == map[]
    ensures status.Some? && status.value != [] ==>
              r.Keys == SpecificSet && forall k :: k in r ==> r[k] == Count(status.value, k)
  {
    if status.None? || status.value == [] then map[]
    else map k | k in SpecificSet :: Count(status.value, k)
  }

  /** Counting the specific statuses never finds more rows than the frame has. */
  lemma CountSpecificBound(rows: seq<string>)
    ensures SumOver(Specific, CountSpecific(Some(rows))) <= |rows|
  {
    SpecificDistinct();
    if rows != [] {
      SumOverCounts(Specific, rows);
      CountsOverDistinct(Specific, rows);
    } else {
      SumOverEmpty(Specific);
    }
  }

  lemma {:induction false} SumOverCounts(keys: seq<string>, rows: seq<string>)
    requires rows != [] && forall k :: k in keys ==> k in SpecificSet
    ensures SumOver(keys, CountSpecific(Some(rows))) == CountsOver(keys, rows)
  {
    if keys != [] {
      SumOverCounts(keys[1..], rows);
    }
  }

  lemma {:induction false} SumOverEmpty(keys: seq<string>)
    ensures SumOver(keys, map[]) == 0
  {
    if keys != [] {
      SumOverEmpty(keys[1..]);
    }
  }

  // ---------------------------------------------------------------------
  // Loading one sheet
  // ---------------------------------------------------------------------

  /** A worksheet as openpyxl yields it: its name and its rows of cells, the header first. */
  datatype Sheet = Sheet(name: string, rows: seq<seq<Cell>>)

  /** What `metricas_colaboradores[aba]` holds (the hourly productivity left aside). */
  datatype SheetMetrics = SheetMetrics(total: nat, statusCounts: map<string, nat>, daily: map<string, nat>)

  /** `metricas_diarias`: every specific status at 0, then `update(status_counts)`. */
  function Daily(counts: map<string, nat>): (d: map<string, nat>)
    ensures d.Keys == SpecificSet + counts.Keys
    ensures forall k :: k in counts ==> d[k] == counts[k]
    ensures forall k :: k in SpecificSet && k !in counts ==> d[k] == 0
  {
    (map k | k in SpecificSet :: 0) + counts
  }

  /** The column names of a header row. */
  function Columns(header: seq<Cell>): (cols: seq<string>)
    ensures |cols| == |header| && forall i :: 0 <= i < |cols| ==> cols[i] == ColumnName(i, header[i])
  {
    seq(|header|, i requires 0 <= i < |header| => ColumnName(i, header[i]))
  }

  /** The width pandas gives a frame built from `data`: that of its widest row. */
  function Widest(data: seq<seq<Cell>>): (w: nat)
    ensures forall i :: 0 <= i < |data| ==> |data[i]| <= w
    ensures data != [] ==> exists i :: 0 <= i < |data| && |data[i]| == w
    ensures data == [] ==> w == 0
  {
    if data == [] then 0
    else
      var w := Widest(data[1..]);
      assert forall i :: 1 <= i < |data| ==> data[i] == data[1..][i - 1];
      if |data[0]| >= w then |data[0]| else w
  }

  /** Cell `k` of a row once pandas has padded the short rows with `None`. */
  function CellAt(row: seq<Cell>, k: nat): Cell {
    if k < |row| then row[k] else Empty
  }

  /** A value pandas can hold in a float64 column: an int, a float or a missing value (a bool is not one). */
  predicate NumericOrNa(c: Cell) {
    c.Int? || c.Float? || c.Empty?
  }

  /**
   * `pd.DataFrame` infers one dtype per column: a column whose values are all
   * ints, floats or missing, with at least one float or missing value, is
   * stored as float64, so its ints become floats.
   */
  predicate FloatColumn(data: seq<seq<Cell>>, k: nat) {
    && (forall i :: 0 <= i < |data| ==> NumericOrNa(CellAt(data[i], k)))
    && (exists i :: 0 <= i < |data| && (CellAt(data[i], k).Float? || CellAt(data[i], k).Empty?))
  }

  /** 2^53: every integer of at most this magnitude is a float64 exactly. */
  const ExactFloat: int := 0x20_0000_0000_0000

  /** `str(float(n))` for an integer a float64 holds exactly: its digits followed by `.0`. */
  function FloatOfInt(n: int): (c: Cell)
    ensures c.Float? && c.x == n as real
  {
    Float(n as real, IntToString(n) + ".0")
  }

  /**
   * Cell `k` of data row `i` as the column's dtype holds it: an int in a
   * float64 column is a float.
   */
  function ColumnCell(data: seq<seq<Cell>>, k: nat, i: nat): Cell
    requires i < |data|
  {
    var c := CellAt(data[i], k);
    if c.Int? && FloatColumn(data, k) && -ExactFloat <= c.n <= ExactFloat then FloatOfInt(c.n) else c
  }

  /** The STATUS values of the data rows, read from column `k` after the column's dtype is inferred. */
  function StatusColumnValues(data: seq<seq<Cell>>, k: nat): (vals: seq<string>)
    ensures |vals| == |data|
    ensures forall i :: 0 <= i < |data| && !CellAt(data[i], k).Int? ==> vals[i] == StatusValue(CellAt(data[i], k))
    ensures forall i :: 0 <= i < |data| && CellAt(data[i], k).Int? && !FloatColumn(data, k) ==>
              vals[i] == StatusValue(CellAt(data[i], k))
    ensures forall i :: 0 <= i < |data| && CellAt(data[i], k).Int? && FloatColumn(data, k)
                          && -ExactFloat <= CellAt(data[i], k).n <= ExactFloat ==>
              vals[i] == StatusValue(Str(IntToString(CellAt(data[i], k).n) + ".0"))
  {
    seq(|data|, i requires 0 <= i < |data| => StatusValue(ColumnCell(data, k, i)))
  }

  /**
   * In a STATUS column of numbers and blanks, pandas upcasts the ints to
   * floats: an int `n` reads `n.0`, not `n`, and a blank reads `PENDENTE`.
   */
  lemma IntNextToBlank(data: seq<seq<Cell>>, k: nat, i: nat, j: nat, n: int)
    requires forall r :: 0 <= r < |data| ==> NumericOrNa(CellAt(data[r], k))
    requires i < |data| && CellAt(data[i], k) == Int(n) && -ExactFloat <= n <= ExactFloat
    requires j < |data| && CellAt(data[j], k).Empty?
    ensures StatusColumnValues(data, k)[i] == IntToString(n) + ".0"
    ensures StatusColumnValues(data, k)[j] == "PENDENTE"
  {
    BlankMakesFloat(data, k, j);
    BlankPendente(data, k, j);
    IntTextValue(n);
  }

  /** One missing value in a column of ints and floats makes it a float64 column. */
  lemma BlankMakesFloat(data: seq<seq<Cell>>, k: nat, i: nat)
    requires forall j :: 0 <= j < |data| ==> NumericOrNa(CellAt(data[j], k))
    requires i < |data| && CellAt(data[i], k).Empty?
    ensures FloatColumn(data, k)
  {
  }

  /** A missing STATUS cell reads `PENDENTE`, whatever the column's dtype. */
  lemma BlankPendente(data: seq<seq<Cell>>, k: nat, i: nat)
    requires i < |data| && CellAt(data[i], k).Empty?
    ensures StatusColumnValues(data, k)[i] == "PENDENTE"
  {
    PendenteOfEmpty();
  }

  /** A STATUS column of ints alone stays int64: an int `n` reads as its text `n`. */
  lemma IntsAlone(data: seq<seq<Cell>>, k: nat, i: nat, n: int)
    requires forall r :: 0 <= r < |data| ==> CellAt(data[r], k).Int?
    requires i < |data| && CellAt(data[i], k) == Int(n)
    ensures StatusColumnValues(data, k)[i] == IntToString(n)
  {
    assert !FloatColumn(data, k);
    IntTextValue(n);
  }

  /** An integer's text, with or without a trailing `.0`, is its own STATUS value. */
  lemma IntTextValue(n: int)
    ensures StatusValue(Str(IntToString(n))) == IntToString(n)
    ensures StatusValue(Str(IntToString(n) + ".0")) == IntToString(n) + ".0"
  {
    NumeralValue(IntToString(n));
    PointZeroValue(IntToString(n));
  }

  lemma PointZeroValue(t: string)
    requires t != [] && Trimmed(t)
    requires forall k :: 0 <= k < |t| ==> IsDigit(t[k]) || t[k] == '-'
    ensures StatusValue(Str(t + ".0")) == t + ".0"
  {
    var u := t + ".0";
    forall k | 0 <= k < |u|
      ensures IsDigit(u[k]) || u[k] == '.' || u[k] == '-'
    {
      if k < |t| { assert u[k] == t[k]; }
    }
    NumeralValue(u);
  }

  /** A numeral such as `-1` or `1.0` is its own STATUS value. */
  lemma NumeralValue(s: string)
    requires s != [] && Trimmed(s)
    requires forall k :: 0 <= k < |s| ==> IsDigit(s[k]) || s[k] == '.' || s[k] == '-'
    ensures StatusValue(Str(s)) == s
  {
    NumeralUncased(s);
    UpperOfUncased(s);
    StripOfTrimmed(s);
    assert CleanStatus(Str(s)) == s;
    assert s != "ANALISE" by { assert s[0] != "ANALISE"[0]; }
    MapStatusMoves(s);
  }

  lemma {:induction false} NumeralUncased(s: string)
    requires forall k :: 0 <= k < |s| ==> IsDigit(s[k]) || s[k] == '.' || s[k] == '-'
    ensures AllUncased(s)
  {
    if s != [] {
      NumeralUncased(s[1..]);
    }
  }

  /** The column names after `rename(columns={cols[k]: 'STATUS'})`: every column named like column `k` becomes `STATUS`. */
  function Renamed(cols: seq<string>, k: nat): (r: seq<string>)
    requires k < |cols|
    ensures |r| == |cols| && r[k] == "STATUS"
    ensures forall j :: 0 <= j < |cols| ==> (r[j] == "STATUS" <==> cols[j] == cols[k] || cols[j] == "STATUS")
  {
    seq(|cols|, j requires 0 <= j < |cols| => if cols[j] == cols[k] then "STATUS" else cols[j])
  }

  /**
   * `df['STATUS']` is a single column only when exactly one column carries
   * the name after the rename; with two or more it is a frame, `.str`
   * raises and the sheet's `except` skips the sheet.
   */
  predicate OneStatusColumn(cols: seq<string>, k: nat)
    requires k < |cols|
  {
    Count(Renamed(cols, k), "STATUS") == 1
  }

  /** The rename leaves one STATUS column exactly when no other column shares column `k`'s name or is already `STATUS`. */
  lemma OneStatusColumnIff(cols: seq<string>, k: nat)
    requires k < |cols|
    ensures OneStatusColumn(cols, k) <==> forall j :: 0 <= j < |cols| && j != k ==> cols[j] != cols[k] && cols[j] != "STATUS"
  {
    CountOnce(Renamed(cols, k), k, "STATUS");
  }

  /**
   * The cleaned STATUS column of a sheet, or `None` when the sheet is
   * skipped: no rows, no data rows, a frame whose widest data row is not
   * as wide as the header (pandas raises), no status column, or a status
   * column whose name the rename gives to a second column as well.
   */
  function SheetStatuses(sh: Sheet): (r: Option<seq<string>>)
    ensures r.Some? ==> |sh.rows| >= 2 && sh.rows[0] != [] && |r.value| == |sh.rows| - 1
    ensures r.Some? ==> Widest(sh.rows[1..]) == |sh.rows[0]|
    ensures r.Some? ==> StatusColumn(Columns(sh.rows[0])).Some?
  {
    if sh.rows == [] then None
    else
      var header, data := sh.rows[0], sh.rows[1..];
      if header == [] || data == [] || Widest(data) != |header| then None
      else
        var cols := Columns(header);
        match StatusColumn(cols)
        case None => None
        case Some(k) => if OneStatusColumn(cols, k) then Some(StatusColumnValues(data, k)) else None
  }

  /**
   * The body of the sheet loop of `carregar_dados`: a skipped sheet yields
   * nothing; otherwise its row count, `value_counts` of the STATUS values
   * and `metricas_diarias`.
   */
  function LoadSheet(sh: Sheet): (r: Option<SheetMetrics>)
    ensures r.Some? <==> SheetStatuses(sh).Some?
    ensures r.Some? ==>
              var st := SheetStatuses(sh).value;
              && r.value.total == |st| == |sh.rows| - 1 > 0
              && r.value.statusCounts == ValueCounts(st)
              && r.value.daily == Daily(ValueCounts(st))
  {
    match SheetStatuses(sh)
    case None => None
    case Some(st) => Some(SheetMetrics(|st|, ValueCounts(st), Daily(ValueCounts(st))))
  }

  /**
   * Which sheets load: those with a non-empty header, at least one data
   * row, no data row wider than the header and one exactly as wide, and a
   * status column whose name no other column shares and that is the only
   * column called `STATUS` after the rename.
   */
  lemma LoadSheetWhen(sh: Sheet)
    ensures LoadSheet(sh).Some? <==>
              && |sh.rows| >= 2 && sh.rows[0] != []
              && (forall i :: 1 <= i < |sh.rows| ==> |sh.rows[i]| <= |sh.rows[0]|)
              && (exists i :: 1 <= i < |sh.rows| && |sh.rows[i]| == |sh.rows[0]|)
              && StatusColumn(Columns(sh.rows[0])).Some?
              && var cols, k := Columns(sh.rows[0]), StatusColumn(Columns(sh.rows[0])).value;
                 forall j :: 0 <= j < |cols| && j != k ==> cols[j] != cols[k] && cols[j] != "STATUS"
  {
    SheetStatusesWhen(sh);
    if |sh.rows| >= 2 && sh.rows[0] != [] {
      var header, data := sh.rows[0], sh.rows[1..];
      assert forall i :: 1 <= i < |sh.rows| ==> sh.rows[i] == data[i - 1];
      assert (forall i :: 0 <= i < |data| ==> |data[i]| <= |header|) && (exists i :: 0 <= i < |data| && |data[i]| == |header|)
             <==> Widest(data) == |header|;
      var cols := Columns(header);
      if StatusColumn(cols).Some? {
        OneStatusColumnIff(cols, StatusColumn(cols).value);
      }
    }
  }

  lemma SheetStatusesWhen(sh: Sheet)
    ensures SheetStatuses(sh).Some? <==>
              && |sh.rows| >= 2 && sh.rows[0] != [] && Widest(sh.rows[1..]) == |sh.rows[0]|
              && StatusColumn(Columns(sh.rows[0])).Some?
              && OneStatusColumn(Columns(sh.rows[0]), StatusColumn(Columns(sh.rows[0])).value)
  {
  }

  /** A loaded sheet's STATUS values are read from its status column. */
  lemma SheetStatusesValue(sh: Sheet)
    requires SheetStatuses(sh).Some?
    ensures SheetStatuses(sh).value == StatusColumnValues(sh.rows[1..], StatusColumn(Columns(sh.rows[0])).value)
  {
  }

  /** A data row too short to reach the status column is padded with `None` and reads `PENDENTE`. */
  lemma ShortRowPendente(sh: Sheet, i: nat)
    requires SheetStatuses(sh).Some? && 1 <= i < |sh.rows|
    requires |sh.rows[i]| <= StatusColumn(Columns(sh.rows[0])).value
    ensures SheetStatuses(sh).value[i - 1] == "PENDENTE"
  {
    var k := StatusColumn(Columns(sh.rows[0])).value;
    SheetStatusesValue(sh);
    assert sh.rows[1..][i - 1] == sh.rows[i];
    assert CellAt(sh.rows[i], k) == Empty;
    PendenteOfEmpty();
  }

  /**
   * A loaded sheet's counts are over clean labels, add up to its row count,
   * and its daily metrics list every specific status with its count (0 when
   * unseen).
   */
  lemma LoadSheetMetrics(sh: Sheet)
    requires LoadSheet(sh).Some?
    ensures var m := LoadSheet(sh).value;
            && MapSum(m.statusCounts) == m.total
            && (forall k :: k in m.statusCounts ==> Trimmed(k) && Upper(k) == k && k != "ANALISE")
            && (forall k :: k in SpecificSet ==> k in m.daily && m.daily[k] == Get(m.statusCounts, k))
  {
    var st := SheetStatuses(sh).value;
    ValueCountsSum(st);
    SheetStatusesClean(sh);
  }

  /** Every STATUS value of a loaded sheet is a clean label. */
  lemma SheetStatusesClean(sh: Sheet)
    requires SheetStatuses(sh).Some?
    ensures forall k :: k in SheetStatuses(sh).value ==> Trimmed(k) && Upper(k) == k && k != "ANALISE"
  {
    SheetStatusesValue(sh);
    ColumnValuesClean(sh.rows[1..], StatusColumn(Columns(sh.rows[0])).value);
  }

  lemma ColumnValuesClean(data: seq<seq<Cell>>, col: nat)
    ensures forall k :: k in StatusColumnValues(data, col) ==> Trimmed(k) && Upper(k) == k && k != "ANALISE"
  {
    var st := StatusColumnValues(data, col);
    forall k | k in st
      ensures Trimmed(k) && Upper(k) == k && k != "ANALISE"
    {
      var i :| 0 <= i < |st| && st[i] == k;
      assert k == StatusValue(ColumnCell(data, col, i));
    }
  }

  /** The sheets `carregar_dados` never reads. */
  const Excluded: set<string> := {"TESTE", "RELATÓRIO GERAL"}

  /** One `metricas_colaboradores` entry: the sheet (collaborator) name and its metrics. */
  datatype Entry = Entry(name: string, metrics: SheetMetrics)

  /** The loop over the sheets of one workbook, in workbook order. */
  function LoadWorkbook(sheets: seq<Sheet>): (es: seq<Entry>)
    ensures |es| <= |sheets|
  {
    if sheets == [] then []
    else
      var rest := LoadWorkbook(sheets[1..]);
      var sh := sheets[0];
      if sh.name !in Excluded && LoadSheet(sh).Some? then [Entry(sh.name, LoadSheet(sh).value)] + rest else rest
  }

  /** The entry is what the workbook's loop makes of this sheet. */
  predicate LoadedFrom(sh: Sheet, e: Entry) {
    sh.name == e.name && sh.name !in Excluded && LoadSheet(sh) == Some(e.metrics)
  }

  lemma LoadWorkbookHead(sheets: seq<Sheet>, e: Entry)
    requires sheets != []
    ensures e in LoadWorkbook(sheets) <==> LoadedFrom(sheets[0], e) || e in LoadWorkbook(sheets[1..])
  {
  }

  /** The entries are exactly those of the loadable, non-excluded sheets, each under its sheet's name. */
  lemma LoadWorkbookMembers(sheets: seq<Sheet>, e: Entry)
    ensures e in LoadWorkbook(sheets) <==> exists k :: 0 <= k < |sheets| && LoadedFrom(sheets[k], e)
  {
    if e in LoadWorkbook(sheets) {
      var k := LoadWorkbookSource(sheets, e);
    }
    if exists k :: 0 <= k < |sheets| && LoadedFrom(sheets[k], e) {
      var k :| 0 <= k < |sheets| && LoadedFrom(sheets[k], e);
      LoadWorkbookHas(sheets, e, k);
    }
  }

  /** The sheet an entry of the workbook comes from. */
  lemma {:induction false} LoadWorkbookSource(sheets: seq<Sheet>, e: Entry) returns (k: nat)
    requires e in LoadWorkbook(sheets)
    ensures k < |sheets| && LoadedFrom(sheets[k], e)
  {
    LoadWorkbookHead(sheets, e);
    if LoadedFrom(sheets[0], e) {
      k := 0;
    } else {
      var j := LoadWorkbookSource(sheets[1..], e);
      k := j + 1;
      assert sheets[k] == sheets[1..][j];
    }
  }

  /** A loadable, non-excluded sheet contributes its entry. */
  lemma {:induction false} LoadWorkbookHas(sheets: seq<Sheet>, e: Entry, k: nat)
    requires k < |sheets| && LoadedFrom(sheets[k], e)
    ensures e in LoadWorkbook(sheets)
  {
    LoadWorkbookHead(sheets, e);
    if k > 0 {
      assert sheets[1..][k - 1] == sheets[k];
      LoadWorkbookHas(sheets[1..], e, k - 1);
    }
  }

  /** One `dados_grupos` value: a group (workbook) name and its collaborators' entries, in load order. */
  datatype Group = Group(name: string, entries: seq<Entry>)
}
