/**
 * The workbook import of `import_excel.py`: `convert_to_days` and the
 * per-sheet, per-row loop of `process_excel_file`, which turns every row of
 * a sheet carrying both a `SITUAÇÃO` and a `RESOLUÇÃO` column into a
 * contract and counts the raw status labels it meets.
 *
 * A workbook is its list of sheets; a sheet is its name, its set of column
 * names and its rows, each row a map from column name to cell.  The clock
 * is the parameter `now` (microseconds, as in `Cells.Date`), and whether the
 * database accepts a contract is the oracle `ok`.
 */
module ExcelImport {
  import opened Wrappers
  import opened Text
  import opened Cells
  import opened Tally

  /** Microseconds in one day. */
  const Day: int := 86_400_000_000

  const Situacao: string := "SITUAÇÃO"
  const Resolucao: string := "RESOLUÇÃO"

  /** `status_map`: the nine recognised labels and their stored codes. */
  const StatusMap: map<string, string> := map[
    "VERIFICADO" := "verified",
    "ANÁLISE" := "analysis",
    "PENDENTE" := "pending",
    "PRIORIDADE" := "priority",
    "PRIORIDADE TOTAL" := "high_priority",
    "APROVADO" := "approved",
    "QUITADO" := "paid",
    "APREENDIDO" := "seized",
    "CANCELADO" := "cancelled"
  ]

  /** The status codes the health check accepts (`health_check.py`). */
  const Codes: set<string> := {
    "verified", "analysis", "approved", "pending", "paid",
    "seized", "priority", "high_priority", "cancelled", "other"
  }

  datatype Sheet = Sheet(name: string, columns: set<string>, rows: seq<map<string, Cell>>)

  /** The fields of a `Contract` row the import sets from the sheet. */
  datatype Contract = Contract(number: string, collaborator: string, status: string, resolution: Option<real>)

  /**
   * The state of the row loop of one sheet: the running counter, the label
   * counts, the contracts flushed so far, and whether a refused flush has
   * left the session needing a rollback.
   */
  datatype SheetOutcome = SheetOutcome(imported: nat, counts: map<string, nat>, flushed: seq<Contract>, poisoned: bool)

  /**
   * What one file leaves behind: the contracts committed, the counter and
   * label counts it prints, and whether the outer `except` ended it.
   */
  datatype FileOutcome = FileOutcome(committed: seq<Contract>, imported: nat, counts: map<string, nat>, failed: bool)

  // ---------------------------------------------------------------------
  // convert_to_days
  // ---------------------------------------------------------------------

  /**
   * `convert_to_days`: nothing for a missing value, the number itself for an
   * int, bool or float, the whole days elapsed since a date, and nothing for
   * anything else (strings included).
   */
  function ConvertToDays(c: Cell, now: int): (r: Option<real>)
    ensures r.None? <==> c.Empty? || c.Str?
  {
    match c
    case Empty => None
    case Int(n) => Some(n as real)
    case Bool(b) => Some(if b then 1.0 else 0.0)
    case Float(x, _) => Some(x)
    case Date(t, _) => Some(((now - t) / Day) as real)
    case Str(_) => None
  }

  /**
   * The numbers `convert_to_days` gives: an int, bool or float unchanged,
   * and for a date the whole number of days `d` with `d` days at most the
   * time elapsed and `d + 1` days more than it (Python's floor of a
   * `timedelta`, also for dates in the future).
   */
  lemma ConvertToDaysValues(c: Cell, now: int)
    ensures c.Int? ==> ConvertToDays(c, now) == Some(c.n as real)
    ensures c.Bool? ==> ConvertToDays(c, now) == Some(if c.b then 1.0 else 0.0)
    ensures c.Float? ==> ConvertToDays(c, now) == Some(c.x)
    ensures c.Date? ==> ConvertToDays(c, now).Some? && ConvertToDays(c, now).value == ConvertToDays(c, now).value.Floor as real
    ensures c.Date? ==> ConvertToDays(c, now).Some?
                        && ConvertToDays(c, now).value.Floor * Day <= now - c.micros < (ConvertToDays(c, now).value.Floor + 1) * Day
  {
    if c.Date? {
      var d := (now - c.micros) / Day;
      assert (d as real).Floor == d;
    }
  }

  /** A date `d` whole days and a few microseconds old counts as `d` days, in the past or the future. */
  lemma DaysOfDate(d: int, extra: int, now: int, repr: string)
    requires 0 <= extra < Day
    ensures ConvertToDays(Date(now - d * Day - extra, repr), now) == Some(d as real)
  {
    var r := ConvertToDays(Date(now - d * Day - extra, repr), now);
    ConvertToDaysValues(Date(now - d * Day - extra, repr), now);
    var f := r.value.Floor;
    assert f * Day <= d * Day + extra < (f + 1) * Day;
    assert (f - d) * Day <= extra < Day;
    assert d * Day < (f + 1) * Day;
  }

  // ---------------------------------------------------------------------
  // Labels and status codes
  // ---------------------------------------------------------------------

  /** A row's cell in a column; a row of a sheet that has the column always holds one. */
  function CellAt(row: map<string, Cell>, column: string): Cell {
    if column in row then row[column] else Empty
  }

  /** The `situacao` label: `str(v).strip().upper()` when present, `''` otherwise. */
  function Label(c: Cell): (r: string)
    ensures IsNa(c) ==> r == ""
    ensures Trimmed(r) && Upper(r) == r
  {
    if IsNa(c) then ""
    else
      UpperKeepsTrimmed(Strip(Render(c)));
      UpperIdempotent(Strip(Render(c)));
      Upper(Strip(Render(c)))
  }

  /** A label read back as text is its own label: the normalisation is idempotent. */
  lemma LabelIdempotent(c: Cell)
    ensures Label(Str(Label(c))) == Label(c)
  {
    StripOfTrimmed(Label(c));
  }

  /** `status_map.get(situacao, 'other')`. */
  function StatusOf(situacao: string): (r: string)
    ensures r in Codes
    ensures r == "other" <==> situacao !in StatusMap
    ensures situacao in StatusMap ==> r == StatusMap[situacao]
  {
    if situacao in StatusMap then StatusMap[situacao] else "other"
  }

  /** Distinct recognised labels get distinct codes, so a code names its label. */
  lemma StatusOfInjective(a: string, b: string)
    requires StatusOf(a) == StatusOf(b) != "other"
    ensures a == b
  {
  }

  /** The empty label, the unaccented `ANALISE` and `OUTROS ACORDOS` all fall back to `other`. */
  lemma UnmappedLabels()
    ensures StatusOf("") == "other"
    ensures StatusOf("ANALISE") == "other"
    ensures StatusOf("OUTROS ACORDOS") == "other"
  {
  }

  lemma RecognisedPlain(l: string)
    requires l in StatusMap
    ensures Plain(l) && l != [] && l[0] != ' ' && l[|l| - 1] != ' '
  {
  }

  /** A recognised label typed with whitespace around it still gets its code. */
  lemma PaddedLabel(a: string, l: string, b: string)
    requires l in StatusMap && AllSpace(a) && AllSpace(b)
    ensures StatusOf(Label(Str(a + l + b))) == StatusMap[l]
  {
    RecognisedPlain(l);
    PlainClean(l);
    StripOfPadded(a, l, b);
  }

  // ---------------------------------------------------------------------
  // Contracts
  // ---------------------------------------------------------------------

  /** `f"{grupo}-{sheet_name}-{idx}"`. */
  function ContractNumber(grupo: string, sheet: string, idx: nat): string {
    grupo + "-" + sheet + "-" + IntToString(idx)
  }

  /** Splitting at the last occurrence of a character its tail does not contain. */
  lemma SplitAtLast(a: string, b: string, a': string, b': string, sep: char)
    requires a + [sep] + b == a' + [sep] + b'
    requires sep !in b && sep !in b'
    ensures a == a' && b == b'
  {
    var s := a + [sep] + b;
    assert s[|a|] == sep && s[|a'|] == sep;
    assert forall k :: |a| < k < |s| ==> s[k] == b[k - |a| - 1];
    assert forall k :: |a'| < k < |s| ==> s[k] == b'[k - |a'| - 1];
    assert |a| == |a'|;
    assert a == s[..|a|] == a';
    assert b == s[|a| + 1..] == b';
  }

  lemma NatStringHasNoDash(n: nat)
    ensures '-' !in IntToString(n)
  {
    assert IntToString(n) == NatToString(n);
    assert !IsDigit('-');
  }

  /**
   * Within one group the number determines the sheet and the row: distinct
   * (sheet, row) pairs never collide on the unique `contract_number`.
   */
  lemma ContractNumberInjective(grupo: string, s: string, i: nat, s': string, i': nat)
    requires ContractNumber(grupo, s, i) == ContractNumber(grupo, s', i')
    ensures s == s' && i == i'
  {
    var p := grupo + "-";
    NatStringHasNoDash(i);
    NatStringHasNoDash(i');
    assert ContractNumber(grupo, s, i) == p + (s + "-" + IntToString(i));
    assert ContractNumber(grupo, s', i') == p + (s' + "-" + IntToString(i'));
    var t, t' := s + "-" + IntToString(i), s' + "-" + IntToString(i');
    assert t == ContractNumber(grupo, s, i)[|p|..];
    assert t' == ContractNumber(grupo, s', i')[|p|..];
    SplitAtLast(s, IntToString(i), s', IntToString(i'), '-');
    IntRoundTrip(i);
    IntRoundTrip(i');
  }

  /** The contract built for row `idx` of a sheet: the sheet name is the collaborator. */
  function RowContract(grupo: string, sheet: string, idx: nat, row: map<string, Cell>, now: int): (c: Contract)
    ensures c.collaborator == sheet && c.status in Codes
  {
    Contract(
      ContractNumber(grupo, sheet, idx),
      sheet,
      StatusOf(Label(CellAt(row, Situacao))),
      ConvertToDays(CellAt(row, Resolucao), now))
  }

  /** A sheet is read only when it has both required columns. */
  predicate Readable(s: Sheet) {
    Situacao in s.columns && Resolucao in s.columns
  }

  /** The contracts built for a run of rows, one per row in order, numbered from 0. */
  function RowContracts(grupo: string, sheet: string, rows: seq<map<string, Cell>>, now: int): (r: seq<Contract>)
    ensures |r| == |rows|
  {
    if rows == [] then []
    else RowContracts(grupo, sheet, rows[..|rows| - 1], now) + [RowContract(grupo, sheet, |rows| - 1, rows[|rows| - 1], now)]
  }

  /** Row `i` of a run becomes contract `i`, named after the sheet and numbered with `i`. */
  lemma {:induction false} RowContractsShape(grupo: string, sheet: string, rows: seq<map<string, Cell>>, now: int)
    ensures forall i :: 0 <= i < |rows| ==>
              RowContracts(grupo, sheet, rows, now)[i].collaborator == sheet
              && RowContracts(grupo, sheet, rows, now)[i].number == ContractNumber(grupo, sheet, i)
  {
    if rows != [] {
      var init := rows[..|rows| - 1];
      RowContractsShape(grupo, sheet, init, now);
      var a := RowContracts(grupo, sheet, init, now);
      var last := RowContract(grupo, sheet, |rows| - 1, rows[|rows| - 1], now);
      var r := RowContracts(grupo, sheet, rows, now);
      assert r == a + [last];
      forall i | 0 <= i < |rows|
        ensures r[i].collaborator == sheet && r[i].number == ContractNumber(grupo, sheet, i)
      {
        if i < |a| {
          assert r[i] == a[i];
        } else {
          assert r[i] == last;
        }
      }
    }
  }

  /** The labels of a run of rows, in order. */
  function RowLabels(rows: seq<map<string, Cell>>): (r: seq<string>)
    ensures |r| == |rows|
  {
    if rows == [] then [] else RowLabels(rows[..|rows| - 1]) + [Label(CellAt(rows[|rows| - 1], Situacao))]
  }

  /** The contracts a sheet yields, one per row in order; none for a sheet that is skipped. */
  function SheetContracts(grupo: string, s: Sheet, now: int): seq<Contract> {
    if Readable(s) then RowContracts(grupo, s.name, s.rows, now) else []
  }

  /** The labels a sheet yields, one per row in order; none for a sheet that is skipped. */
  function SheetLabels(s: Sheet): seq<string> {
    if Readable(s) then RowLabels(s.rows) else []
  }

  /** Number of rows read from a workbook: the rows of its readable sheets. */
  function RowsRead(sheets: seq<Sheet>): nat {
    if sheets == [] then 0
    else RowsRead(sheets[..|sheets| - 1]) + (if Readable(sheets[|sheets| - 1]) then |sheets[|sheets| - 1].rows| else 0)
  }

  /** Every contract attempted for a workbook, sheet after sheet. */
  function Attempts(grupo: string, sheets: seq<Sheet>, now: int): (r: seq<Contract>)
    ensures |r| == RowsRead(sheets)
  {
    if sheets == [] then []
    else Attempts(grupo, sheets[..|sheets| - 1], now) + SheetContracts(grupo, sheets[|sheets| - 1], now)
  }

  /** Every attempted contract is named after one of the sheets and numbered with a row of it. */
  lemma {:induction false} AttemptsShape(grupo: string, sheets: seq<Sheet>, now: int)
    ensures forall k :: 0 <= k < |Attempts(grupo, sheets, now)| ==> Attempts(grupo, sheets, now)[k].collaborator in Names(sheets)
    ensures forall k :: 0 <= k < |Attempts(grupo, sheets, now)| ==> Numbered(grupo, Attempts(grupo, sheets, now)[k])
  {
    if sheets != [] {
      var init, last := sheets[..|sheets| - 1], sheets[|sheets| - 1];
      var a, b := Attempts(grupo, init, now), SheetContracts(grupo, last, now);
      AttemptsShape(grupo, init, now);
      RowContractsShape(grupo, last.name, last.rows, now);
      assert Attempts(grupo, sheets, now) == a + b;
      assert Names(init) <= Names(sheets) by {
        forall n | n in Names(init)
          ensures n in Names(sheets)
        {
          var j :| 0 <= j < |init| && init[j].name == n;
          assert sheets[j] == init[j];
        }
      }
      assert last.name in Names(sheets) by {
        assert sheets[|sheets| - 1] == last;
      }
      var cs: seq<Contract> := a + b;
      forall k | 0 <= k < |cs|
        ensures cs[k].collaborator in Names(sheets) && Numbered(grupo, cs[k])
      {
        if k < |a| {
          assert cs[k] == a[k];
        } else {
          assert cs[k] == b[k - |a|];
          assert b[k - |a|].number == ContractNumber(grupo, b[k - |a|].collaborator, k - |a|);
        }
      }
    }
  }

  /** Every label read from a workbook, sheet after sheet. */
  function Labels(sheets: seq<Sheet>): (r: seq<string>)
    ensures |r| == RowsRead(sheets)
  {
    if sheets == [] then []
    else Labels(sheets[..|sheets| - 1]) + SheetLabels(sheets[|sheets| - 1])
  }

  function Names(sheets: seq<Sheet>): set<string> {
    set j | 0 <= j < |sheets| :: sheets[j].name
  }

  /** The contract's number is the one built from its collaborator and some row index. */
  ghost predicate Numbered(grupo: string, c: Contract) {
    exists idx: nat :: c.number == ContractNumber(grupo, c.collaborator, idx)
  }

  /** The database accepts every contract of `cs`. */
  predicate AllOk(ok: Contract -> bool, cs: seq<Contract>) {
    forall k :: 0 <= k < |cs| ==> ok(cs[k])
  }

  /**
   * The contracts of `cs` flushed before the first refusal: the longest
   * prefix the database accepts.  Once a flush fails the session refuses
   * every later one until it is rolled back.
   */
  function TakeOk(ok: Contract -> bool, cs: seq<Contract>): (r: seq<Contract>)
    ensures |r| <= |cs| && r == cs[..|r|]
    ensures AllOk(ok, r)
    ensures |r| < |cs| ==> !ok(cs[|r|])
  {
    if AllOk(ok, cs) then cs
    else
      var r := TakeOk(ok, cs[..|cs| - 1]);
      assert cs[..|cs| - 1][..|r|] == cs[..|r|];
      r
  }

  predicate DistinctNumbers(cs: seq<Contract>) {
    forall i, j :: 0 <= i < j < |cs| ==> cs[i].number != cs[j].number
  }

  predicate DistinctNames(sheets: seq<Sheet>) {
    forall i, j :: 0 <= i < j < |sheets| ==> sheets[i].name != sheets[j].name
  }

  /**
   * Sheet names are unique within a workbook, so no two rows of one file
   * are given the same contract number.
   */
  lemma {:induction false} AttemptNumbersDistinct(grupo: string, sheets: seq<Sheet>, now: int)
    requires DistinctNames(sheets)
    ensures DistinctNumbers(Attempts(grupo, sheets, now))
  {
    if sheets != [] {
      var init, last := sheets[..|sheets| - 1], sheets[|sheets| - 1];
      var a, b := Attempts(grupo, init, now), SheetContracts(grupo, last, now);
      AttemptNumbersDistinct(grupo, init, now);
      AttemptsShape(grupo, init, now);
      RowContractsShape(grupo, last.name, last.rows, now);
      assert Attempts(grupo, sheets, now) == a + b;
      assert last.name !in Names(init);
      var cs: seq<Contract> := a + b;
      forall i, j | 0 <= i < j < |cs|
        ensures cs[i].number != cs[j].number
      {
        if j < |a| {
          assert cs[i] == a[i] && cs[j] == a[j];
        } else if i >= |a| {
          var i', j' := i - |a|, j - |a|;
          assert cs[i] == b[i'] && cs[j] == b[j'];
          if b[i'].number == b[j'].number {
            ContractNumberInjective(grupo, last.name, i', last.name, j');
          }
        } else {
          var j' := j - |a|;
          assert cs[i] == a[i] && cs[j] == b[j'];
          var idx: nat :| a[i].number == ContractNumber(grupo, a[i].collaborator, idx);
          if a[i].number == b[j'].number {
            ContractNumberInjective(grupo, a[i].collaborator, idx, last.name, j');
          }
        }
      }
    }
  }

  // ---------------------------------------------------------------------
  // process_excel_file
  // ---------------------------------------------------------------------

  lemma AttemptsStep(grupo: string, sheets: seq<Sheet>, i: nat, now: int)
    requires i < |sheets|
    ensures Attempts(grupo, sheets[..i + 1], now) == Attempts(grupo, sheets[..i], now) + SheetContracts(grupo, sheets[i], now)
    ensures Labels(sheets[..i + 1]) == Labels(sheets[..i]) + SheetLabels(sheets[i])
  {
    assert sheets[..i + 1][..i] == sheets[..i];
  }

  /** One more contract: the accepted prefix grows by it exactly when everything before it was accepted and so is it. */
  lemma TakeOkStep(ok: Contract -> bool, cs: seq<Contract>, c: Contract)
    ensures AllOk(ok, cs + [c]) <==> AllOk(ok, cs) && ok(c)
    ensures TakeOk(ok, cs + [c]) == if AllOk(ok, cs) && ok(c) then cs + [c] else TakeOk(ok, cs)
  {
    var s := cs + [c];
    assert s[|cs|] == c;
    assert forall k :: 0 <= k < |cs| ==> s[k] == cs[k];
    assert s[..|s| - 1] == cs;
  }

  /** The counts add up to the non-empty labels, hence to at most the rows read. */
  lemma CountsBound(sheets: seq<Sheet>)
    ensures MapSum(ValueCounts(Without(Labels(sheets), ""))) <= RowsRead(sheets)
  {
    ValueCountsSum(Without(Labels(sheets), ""));
  }

  /** Extending the run of rows by one adds that row's contract and label. */
  lemma RowsStep(grupo: string, sheet: string, rows: seq<map<string, Cell>>, j: nat, now: int)
    requires j < |rows|
    ensures RowContracts(grupo, sheet, rows[..j + 1], now)
         == RowContracts(grupo, sheet, rows[..j], now) + [RowContract(grupo, sheet, j, rows[j], now)]
    ensures RowLabels(rows[..j + 1]) == RowLabels(rows[..j]) + [Label(CellAt(rows[j], Situacao))]
  {
    assert rows[..j + 1][..j] == rows[..j];
  }

  lemma CountsStep(seen: seq<string>, labels: seq<string>, situacao: string)
    ensures ValueCounts(Without(seen + (labels + [situacao]), ""))
         == CountUnless(ValueCounts(Without(seen + labels, "")), situacao, "")
  {
    assert seen + (labels + [situacao]) == (seen + labels) + [situacao];
    ValueCountsWithoutAppend(seen + labels, situacao, "");
  }

  /**
   * One row: its label is counted and its contract offered to the
   * database.  The flush succeeds only while the session is usable and the
   * database accepts the contract; a refusal leaves the session needing a
   * rollback, which the row's `except` never issues.
   */
  function Row(r: SheetOutcome, situacao: string, ok: Contract -> bool, c: Contract): SheetOutcome {
    var flushes := !r.poisoned && ok(c);
    SheetOutcome(
      if flushes then r.imported + 1 else r.imported,
      CountUnless(r.counts, situacao, ""),
      if flushes then r.flushed + [c] else r.flushed,
      r.poisoned || !ok(c))
  }

  /** One more row: the flushed contracts stay the accepted prefix of the attempts. */
  lemma FlushedStep(ok: Contract -> bool, cs: seq<Contract>, situacao: string, c: Contract, r: SheetOutcome)
    requires r.flushed == TakeOk(ok, cs) && r.imported == |r.flushed| && (r.poisoned <==> !AllOk(ok, cs))
    ensures Row(r, situacao, ok, c).flushed == TakeOk(ok, cs + [c])
    ensures Row(r, situacao, ok, c).imported == |Row(r, situacao, ok, c).flushed|
    ensures Row(r, situacao, ok, c).poisoned <==> !AllOk(ok, cs + [c])
  {
    TakeOkStep(ok, cs, c);
  }

  /** One more row: its label is counted when it is not empty. */
  lemma LabelStep(seen: seq<string>, labels: seq<string>, situacao: string, ok: Contract -> bool, c: Contract, r: SheetOutcome)
    requires r.counts == ValueCounts(Without(seen + labels, ""))
    ensures Row(r, situacao, ok, c).counts == ValueCounts(Without(seen + (labels + [situacao]), ""))
  {
    CountsStep(seen, labels, situacao);
  }

  /**
   * The row loop for one readable sheet.  Every row's label is counted,
   * carrying on from `counts0`, those of the labels `seen` on earlier
   * sheets.  The contracts flushed are those before the first refusal, and
   * the session is left needing a rollback exactly when some contract of
   * the sheet is refused.
   */
  method ProcessSheet(grupo: string, s: Sheet, now: int, ok: Contract -> bool, counts0: map<string, nat>, ghost seen: seq<string>)
    returns (r: SheetOutcome)
    requires Readable(s)
    requires counts0 == ValueCounts(Without(seen, ""))
    ensures r.flushed == TakeOk(ok, SheetContracts(grupo, s, now))
    ensures r.imported == |r.flushed|
    ensures r.poisoned <==> !AllOk(ok, SheetContracts(grupo, s, now))
    ensures r.counts == ValueCounts(Without(seen + SheetLabels(s), ""))
  {
    r := SheetOutcome(0, counts0, [], false);
    assert seen + RowLabels(s.rows[..0]) == seen;
    for j := 0 to |s.rows|
      invariant r.flushed == TakeOk(ok, RowContracts(grupo, s.name, s.rows[..j], now))
      invariant r.imported == |r.flushed|
      invariant r.poisoned <==> !AllOk(ok, RowContracts(grupo, s.name, s.rows[..j], now))
      invariant r.counts == ValueCounts(Without(seen + RowLabels(s.rows[..j]), ""))
    {
      var row := s.rows[j];
      var situacao := Label(CellAt(row, Situacao));
      var c := RowContract(grupo, s.name, j, row, now);
      RowsStep(grupo, s.name, s.rows, j, now);
      FlushedStep(ok, RowContracts(grupo, s.name, s.rows[..j], now), situacao, c, r);
      LabelStep(seen, RowLabels(s.rows[..j]), situacao, ok, c, r);
      r := Row(r, situacao, ok, c);
    }
    assert s.rows[..|s.rows|] == s.rows;
  }

  /** The position of the first sheet holding a contract the database refuses, or `|sheets|`. */
  function FirstRefused(grupo: string, sheets: seq<Sheet>, now: int, ok: Contract -> bool): (h: nat)
    ensures h <= |sheets|
    ensures forall k :: 0 <= k < h ==> AllOk(ok, SheetContracts(grupo, sheets[k], now))
    ensures h < |sheets| ==> !AllOk(ok, SheetContracts(grupo, sheets[h], now))
  {
    if sheets == [] then 0
    else if !AllOk(ok, SheetContracts(grupo, sheets[0], now)) then 0
    else
      var h := FirstRefused(grupo, sheets[1..], now, ok);
      assert forall k :: 1 <= k < 1 + h ==> sheets[k] == sheets[1..][k - 1];
      1 + h
  }

  /** Sheet `i`, reached with no refusal before it, is the first refused exactly when it holds a refusal. */
  lemma FirstRefusedAt(grupo: string, sheets: seq<Sheet>, now: int, ok: Contract -> bool, i: nat)
    requires i < |sheets| && i <= FirstRefused(grupo, sheets, now, ok)
    ensures AllOk(ok, SheetContracts(grupo, sheets[i], now)) <==> i < FirstRefused(grupo, sheets, now, ok)
  {
  }

  /** A fully accepted run of contracts is flushed whole. */
  lemma TakeOkAll(ok: Contract -> bool, cs: seq<Contract>)
    requires AllOk(ok, cs)
    ensures TakeOk(ok, cs) == cs
  {
  }

  /**
   * `process_excel_file` for one workbook.  Sheets without both required
   * columns are skipped.  Each other sheet is committed once its rows are
   * done, unless one of its contracts was refused: then `db.commit()`
   * raises, the outer `except` rolls the sheet back, and the file ends.  So
   * the committed contracts are all the attempts of the sheets before the
   * first sheet with a refusal.  A file without a refusal prints a counter
   * equal to the contracts committed and the `value_counts` of the
   * non-empty labels.
   */
  method ProcessFile(grupo: string, sheets: seq<Sheet>, now: int, ok: Contract -> bool) returns (r: FileOutcome)
    ensures r.failed <==> FirstRefused(grupo, sheets, now, ok) < |sheets|
    ensures r.committed == Attempts(grupo, sheets[..FirstRefused(grupo, sheets, now, ok)], now)
    ensures !r.failed ==> r.imported == |r.committed|
    ensures !r.failed ==> r.counts == ValueCounts(Without(Labels(sheets), ""))
    ensures !r.failed ==> MapSum(r.counts) <= RowsRead(sheets)
  {
    ghost var h := FirstRefused(grupo, sheets, now, ok);
    var imported, counts, committed := 0, map[], [];
    for i := 0 to |sheets|
      invariant i <= h
      invariant committed == Attempts(grupo, sheets[..i], now)
      invariant imported == |committed|
      invariant counts == ValueCounts(Without(Labels(sheets[..i]), ""))
    {
      var s := sheets[i];
      AttemptsStep(grupo, sheets, i, now);
      FirstRefusedAt(grupo, sheets, now, ok, i);
      if !(Situacao in s.columns) || !(Resolucao in s.columns) {
        assert SheetContracts(grupo, s, now) == [] && SheetLabels(s) == [];
        assert AllOk(ok, []);
        assert Attempts(grupo, sheets[..i], now) + [] == Attempts(grupo, sheets[..i], now);
        assert Labels(sheets[..i]) + [] == Labels(sheets[..i]);
        continue;
      }
      var sheet := ProcessSheet(grupo, s, now, ok, counts, Labels(sheets[..i]));
      if sheet.poisoned {
        r := FileOutcome(committed, imported + sheet.imported, sheet.counts, true);
        return;
      }
      TakeOkAll(ok, SheetContracts(grupo, s, now));
      committed := committed + sheet.flushed;
      imported := imported + sheet.imported;
      counts := sheet.counts;
    }
    assert sheets[..|sheets|] == sheets;
    CountsBound(sheets);
    r := FileOutcome(committed, imported, counts, false);
  }

  /** A sheet missing either required column adds no contract and no label. */
  lemma SkippedSheet(grupo: string, sheets: seq<Sheet>, s: Sheet, now: int)
    requires !Readable(s)
    ensures Attempts(grupo, sheets + [s], now) == Attempts(grupo, sheets, now)
    ensures Labels(sheets + [s]) == Labels(sheets)
  {
    assert (sheets + [s])[..|sheets|] == sheets;
  }
}
