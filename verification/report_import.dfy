/**
 * `RelatorioDatabase.importar_relatorio_txt` of `static/analisar_dados_v5.py`:
 * the text report is read line by line, group lines set the current group,
 * collaborator lines open a record of eight zero counters, and status lines
 * `STATUS: n` are meant to fill those counters.  Database ids and inserts
 * are left abstract: the import's result is the list of records with their
 * totals.
 */
module ReportImport {
  import opened Wrappers
  import opened Text
  import opened Tally

  /** The statuses a status line may name, in the order of the source's list. */
  const Statuses: seq<string> := [
    "VERIFICADO", "ANÁLISE", "PENDENTE", "PRIORIDADE",
    "PRIORIDADE TOTAL", "APROVADO", "APREENDIDO", "CANCELADO"
  ]

  /** The record's counter names, one per status, in the same order. */
  const Keys: seq<string> := [
    "verificado", "analise", "pendente", "prioridade",
    "prioridade_total", "aprovado", "apreendido", "cancelado"
  ]

  /** `status.lower()` of each status: the name the code stores a value under. */
  const Lowered: seq<string> := [
    "verificado", "análise", "pendente", "prioridade",
    "prioridade total", "aprovado", "apreendido", "cancelado"
  ]

  /** One `dados_colaborador`: who it is about and its counters. */
  datatype Record = Record(group: string, collaborator: string, counters: map<string, int>)

  /** The loop's state: `grupo_atual`, `colaborador_atual` and `dados_relatorio`. */
  datatype Reader = Reader(group: Option<string>, collaborator: Option<string>, records: seq<Record>)

  /**
   * Why the import returns `False`: a colon line that does not split into
   * exactly two pieces, or a status value with no record opened yet
   * (`dados_colaborador` unbound).
   */
  datatype ImportError = NotTwoParts | NoRecord

  /** The code as written, or with the status lines recognised. */
  datatype Version = AsWritten | Corrected

  const Start: Reader := Reader(None, None, [])

  /** The eight counters at 0. */
  function Zeros(): (z: map<string, int>)
    ensures forall k :: k in z <==> k in Keys
    ensures forall k :: k in z ==> z[k] == 0
  {
    map k | k in Keys :: 0
  }

  /** A line the collaborator branch takes: non-empty and not a header or rule. */
  predicate CollaboratorLine(l: string) {
    && !StartsWith(l, " ")
    && l != []
    && !StartsWith(l, "=")
    && !StartsWith(l, "-")
    && !StartsWith(l, "GRUPO:")
    && !StartsWith(l, "RELATÓRIO")
  }

  /** The group a `GRUPO: ` line names. */
  function GroupName(l: string): string {
    Strip(ReplaceAll(l, "GRUPO: ", ""))
  }

  /** The collaborator branch: a record is opened only once a group is known. */
  function Open(st: Reader, l: string): (r: Reader)
    ensures r.collaborator == Some(l)
    ensures st.group.Some? && st.group.value != [] ==> r.records == st.records + [Record(st.group.value, l, Zeros())]
    ensures !(st.group.Some? && st.group.value != []) ==> r.records == st.records
    ensures Named(st.records) && l != [] ==> Named(r.records)
  {
    if st.group.Some? && st.group.value != [] then
      Reader(st.group, Some(l), st.records + [Record(st.group.value, l, Zeros())])
    else
      st.(collaborator := Some(l))
  }

  /** `dados_colaborador[key] = v`: the last record opened gets the value. */
  function SetLast(st: Reader, key: string, v: int): (r: Result<Reader, ImportError>)
    ensures r.Err? <==> st.records == []
    ensures r.Ok? ==> && r.value.group == st.group && r.value.collaborator == st.collaborator
                      && |r.value.records| == |st.records|
                      && r.value.records[..|st.records| - 1] == st.records[..|st.records| - 1]
    ensures r.Ok? ==> var last, now := st.records[|st.records| - 1], r.value.records[|st.records| - 1];
                      && now.group == last.group && now.collaborator == last.collaborator
                      && now.counters.Keys == last.counters.Keys + {key}
                      && now.counters[key] == v
                      && forall k :: k in last.counters && k != key ==> now.counters[k] == last.counters[k]
    ensures r.Ok? && Named(st.records) ==> Named(r.value.records)
  {
    if st.records == [] then Err(NoRecord)
    else
      var n := |st.records| - 1;
      var last := st.records[n];
      Ok(st.(records := st.records[n := last.(counters := last.counters[key := v])]))
  }

  /**
   * The colon branch: `status, valor = linha.split(':')`, then the value
   * is stored under `names[i]` when the cleaned status is the `i`-th
   * status and the value parses as an integer.
   */
  function ColonLine(st: Reader, l: string, names: seq<string>): (r: Result<Reader, ImportError>)
    requires |names| == |Statuses|
    ensures |Split(l, ':')| != 2 ==> r == Err(NotTwoParts)
    ensures IndexOf(Statuses, Upper(Strip(Split(l, ':')[0]))) == |Statuses| ==> r.Ok? ==> r == Ok(st)
    ensures |Split(l, ':')| == 2 && ParseInt(Split(l, ':')[1]).None? ==> r == Ok(st)
    ensures r.Ok? ==> r == Ok(st) || (st.records != [] && r == SetLast(st, names[IndexOf(Statuses, Upper(Strip(Split(l, ':')[0])))], ParseInt(Split(l, ':')[1]).value))
  {
    var parts := Split(l, ':');
    if |parts| != 2 then Err(NotTwoParts)
    else
      var status := Upper(Strip(parts[0]));
      match ParseInt(parts[1])
      case None => Ok(st)
      case Some(n) =>
        var i := IndexOf(Statuses, status);
        if i < |Statuses| then SetLast(st, names[i], n) else Ok(st)
  }

  /**
   * A colon line naming the `i`-th status with an integer value stores the
   * value under `names[i]` in the last record opened, or fails when no
   * record is open yet.
   */
  lemma ColonLineStores(st: Reader, l: string, names: seq<string>, i: nat, n: int)
    requires |names| == |Statuses| && i < |Statuses|
    requires |Split(l, ':')| == 2 && Upper(Strip(Split(l, ':')[0])) == Statuses[i]
    requires ParseInt(Split(l, ':')[1]) == Some(n)
    ensures st.records == [] ==> ColonLine(st, l, names) == Err(NoRecord)
    ensures st.records != [] ==> ColonLine(st, l, names) == SetLast(st, names[i], n)
  {
    IndexOfStatus(i);
  }

  /** The name the code as written stores the `i`-th status under is a spelling of it whose upper-casing is the status. */
  lemma LoweredUpper(i: nat)
    requires i < |Statuses|
    ensures i < |Lowered| && Upper(Lowered[i]) == Statuses[i] && Lowered[i] != Statuses[i]
  {
    if i < 4 {
      LoweredUpperHead(i);
    } else {
      LoweredUpperTail(i);
    }
  }

  lemma LoweredUpperHead(i: nat)
    requires i < 4
    ensures i < |Lowered| && Upper(Lowered[i]) == Statuses[i] && Lowered[i] != Statuses[i]
  {
    if i == 0 {
      assert Lowered[i] == "verificado" && Statuses[i] == "VERIFICADO";
      UpperPointwise("verificado", "VERIFICADO");
    } else if i == 1 {
      assert Lowered[i] == "análise" && Statuses[i] == "ANÁLISE";
      UpperPointwise("análise", "ANÁLISE");
    } else if i == 2 {
      assert Lowered[i] == "pendente" && Statuses[i] == "PENDENTE";
      UpperPointwise("pendente", "PENDENTE");
    } else {
      assert Lowered[i] == "prioridade" && Statuses[i] == "PRIORIDADE";
      UpperPointwise("prioridade", "PRIORIDADE");
    }
  }

  lemma LoweredUpperTail(i: nat)
    requires 4 <= i < 8
    ensures i < |Lowered| && Upper(Lowered[i]) == Statuses[i] && Lowered[i] != Statuses[i]
  {
    if i == 4 {
      assert Lowered[i] == "prioridade total" && Statuses[i] == "PRIORIDADE TOTAL";
      UpperPointwise("prioridade total", "PRIORIDADE TOTAL");
    } else if i == 5 {
      assert Lowered[i] == "aprovado" && Statuses[i] == "APROVADO";
      UpperPointwise("aprovado", "APROVADO");
    } else if i == 6 {
      assert Lowered[i] == "apreendido" && Statuses[i] == "APREENDIDO";
      UpperPointwise("apreendido", "APREENDIDO");
    } else {
      assert Lowered[i] == "cancelado" && Statuses[i] == "CANCELADO";
      UpperPointwise("cancelado", "CANCELADO");
    }
  }

  /** Upper-casing character by character, each character to one. */
  lemma {:induction false} UpperPointwise(s: string, t: string)
    requires |s| == |t| && forall k :: 0 <= k < |s| ==> UpperChar(s[k]) == [t[k]]
    ensures Upper(s) == t
  {
    if s != [] {
      UpperPointwise(s[1..], t[1..]);
      assert t == [t[0]] + t[1..];
    }
  }

  /** A status line `STATUS: n`: which status, and the value. */
  function StatusLine(l: string): (r: Option<(nat, int)>)
    ensures r.Some? ==> r.value.0 < |Statuses|
  {
    var parts := Split(l, ':');
    if |parts| != 2 then None
    else
      var i := IndexOf(Statuses, Upper(Strip(parts[0])));
      var v := ParseInt(parts[1]);
      if i < |Statuses| && v.Some? then Some((i, v.value)) else None
  }

  /** Every record names its group and its collaborator. */
  predicate Named(records: seq<Record>) {
    forall i :: 0 <= i < |records| ==> records[i].group != [] && records[i].collaborator != []
  }

  /**
   * One pass of the `for linha in conteudo.split('\n')` loop: at most one
   * record is opened, records before the last are never touched, and an
   * error needs a collaborator line before it.
   */
  function Step(version: Version, st: Reader, line: string): (r: Result<Reader, ImportError>)
    ensures r.Err? ==> st.collaborator.Some?
    ensures r.Ok? ==> KeepsEarlier(st.records, r.value.records) && |r.value.records| <= |st.records| + 1
    ensures r.Ok? && Named(st.records) ==> Named(r.value.records)
  {
    var l := Strip(line);
    if StartsWith(l, "GRUPO: ") then Ok(st.(group := Some(GroupName(l))))
    else if version == Corrected && StatusLine(l).Some? then
      var (i, n) := StatusLine(l).value;
      if st.records == [] then Ok(st) else SetLast(st, Keys[i], n)
    else if CollaboratorLine(l) then Ok(Open(st, l))
    else if st.collaborator.Some? && Find(l, ":") then
      ColonLine(st, l, if version == AsWritten then Lowered else Keys)
    else Ok(st)
  }

  /**
   * The loop over all lines; the first error ends the import.  Each line
   * opens at most one record, and a record is changed only while it is the
   * last one.
   */
  function Run(version: Version, st: Reader, lines: seq<string>): (r: Result<Reader, ImportError>)
    ensures r.Ok? ==> KeepsEarlier(st.records, r.value.records) && |r.value.records| <= |st.records| + |lines|
    ensures r.Ok? && Named(st.records) ==> Named(r.value.records)
    decreases |lines|
  {
    if lines == [] then Ok(st)
    else
      match Step(version, st, lines[0])
      case Err(e) => Err(e)
      case Ok(next) =>
        match Run(version, next, lines[1..])
        case Err(e) => Err(e)
        case Ok(last) =>
          KeepsEarlierTrans(st.records, next.records, last.records);
          Ok(last)
  }

  /**
   * `after` has at least as many records as `before`, and all but the last
   * of `before` are still there unchanged.
   */
  predicate KeepsEarlier(before: seq<Record>, after: seq<Record>) {
    |before| <= |after| && (before != [] ==> after[..|before| - 1] == before[..|before| - 1])
  }

  lemma KeepsEarlierTrans(a: seq<Record>, b: seq<Record>, c: seq<Record>)
    requires KeepsEarlier(a, b) && KeepsEarlier(b, c)
    ensures KeepsEarlier(a, c)
  {
    if a != [] {
      assert c[..|a| - 1] == c[..|b| - 1][..|a| - 1];
    }
  }

  /** The records the import writes, or why it returns `False`. */
  function Import(version: Version, content: string): (r: Result<seq<Record>, ImportError>)
    ensures r.Ok? ==> |r.value| <= |Split(content, '\n')| && Named(r.value)
  {
    match Run(version, Start, Split(content, '\n'))
    case Err(e) => Err(e)
    case Ok(st) => Ok(st.records)
  }

  /** `sum(dados[k] for k in keys)`. */
  function KeySum(keys: seq<string>, c: map<string, int>): int
    requires forall k :: k in keys ==> k in c
  {
    if keys == [] then 0 else c[keys[0]] + KeySum(keys[1..], c)
  }

  /** The stored total of a record: the sum of its eight counters. */
  function Total(c: map<string, int>): (t: int)
    requires forall k :: k in Keys ==> k in c
    ensures (forall k :: k in Keys ==> c[k] >= 0) ==> t >= 0 && forall k :: k in Keys ==> t >= c[k]
  {
    KeySumBounds(Keys, c);
    KeySum(Keys, c)
  }

  /** With no negative counter, the sum is at least each counter it adds. */
  lemma {:induction false} KeySumBounds(keys: seq<string>, c: map<string, int>)
    requires forall k :: k in keys ==> k in c
    ensures (forall k :: k in keys ==> c[k] >= 0) ==> KeySum(keys, c) >= 0 && forall k :: k in keys ==> KeySum(keys, c) >= c[k]
  {
    if keys != [] {
      KeySumBounds(keys[1..], c);
      assert forall k :: k in keys ==> k == keys[0] || k in keys[1..];
    }
  }

  // ---------------------------------------------------------------------
  // The code as written never fills a counter
  // ---------------------------------------------------------------------

  /** A line starting with `p` starts with `p`'s first character. */
  lemma FirstOfPrefix(l: string, p: string)
    ensures StartsWith(l, p) && p != [] ==> l != [] && l[0] == p[0]
  {
  }

  /** A non-blank line the collaborator branch refuses starts with `=`, `-`, `G` or `R`. */
  lemma NotCollaboratorStart(l: string)
    requires l != [] && !IsSpace(l[0]) && !CollaboratorLine(l)
    ensures l[0] in "=-GR"
  {
    FirstOfPrefix(l, " ");
    FirstOfPrefix(l, "=");
    FirstOfPrefix(l, "-");
    FirstOfPrefix(l, "GRUPO:");
    FirstOfPrefix(l, "RELATÓRIO");
  }

  /** A piece starting with `=`, `-`, `G` or `R` keeps that first character through `strip().upper()`. */
  lemma CleanKeepsHead(p: string)
    requires p != [] && p[0] in "=-GR"
    ensures Upper(Strip(p)) != [] && Upper(Strip(p))[0] == p[0]
  {
    StripKeepsFirst(p);
    UpperHead(Strip(p));
    assert UpperChar(p[0]) == [p[0]];
  }

  /** The status piece of a colon line keeps the line's first character through `strip().upper()`. */
  lemma ColonHead(l: string)
    requires l != [] && l[0] in "=-GR"
    ensures Upper(Strip(Split(l, ':')[0])) != []
    ensures Upper(Strip(Split(l, ':')[0]))[0] == l[0]
  {
    SplitFirstPiece(l, ':');
    CleanKeepsHead(Split(l, ':')[0]);
  }

  /** No status starts with `=`, `-`, `G` or `R`. */
  lemma NoStatusStartsWith(status: string)
    requires status != [] && status[0] in "=-GR"
    ensures IndexOf(Statuses, status) == |Statuses|
  {
    StatusesPlain();
    NoneStartsWith(Statuses, status);
  }

  /** No entry of `ss` is `s` when their first characters come from disjoint sets. */
  lemma NoneStartsWith(ss: seq<string>, s: string)
    requires forall i :: 0 <= i < |ss| ==> ss[i] != [] && ss[i][0] in "VAPC"
    requires s != [] && s[0] in "=-GR"
    ensures IndexOf(ss, s) == |ss|
  {
  }

  /**
   * A line that reaches the colon branch starts with `=`, `-`, `G` or `R`,
   * and so does its status piece after `strip().upper()`; no status does.
   */
  lemma ColonLineNamesNoStatus(l: string)
    requires Trimmed(l) && !CollaboratorLine(l)
    requires |Split(l, ':')| == 2
    ensures IndexOf(Statuses, Upper(Strip(Split(l, ':')[0]))) == |Statuses|
  {
    assert l != [] by {
      SplitTwo(l, ':');
    }
    NotCollaboratorStart(l);
    ColonHead(l);
    NoStatusStartsWith(Upper(Strip(Split(l, ':')[0])));
  }

  predicate AllZero(st: Reader) {
    forall r :: r in st.records ==> r.counters == Zeros()
  }

  /** One line read by the code as written leaves every counter at 0. */
  lemma AsWrittenStepKeepsZero(st: Reader, line: string)
    requires AllZero(st)
    requires Step(AsWritten, st, line).Ok?
    ensures AllZero(Step(AsWritten, st, line).value)
  {
    var l := Strip(line);
    if !StartsWith(l, "GRUPO: ") && !CollaboratorLine(l) && st.collaborator.Some? && Find(l, ":") {
      if |Split(l, ':')| == 2 {
        ColonLineNamesNoStatus(l);
      }
    }
  }

  lemma {:induction false} AsWrittenRunKeepsZero(st: Reader, lines: seq<string>)
    requires AllZero(st)
    requires Run(AsWritten, st, lines).Ok?
    ensures AllZero(Run(AsWritten, st, lines).value)
    decreases |lines|
  {
    if lines != [] {
      AsWrittenStepKeepsZero(st, lines[0]);
      AsWrittenRunKeepsZero(Step(AsWritten, st, lines[0]).value, lines[1..]);
    }
  }

  lemma {:induction false} KeySumZero(keys: seq<string>, c: map<string, int>)
    requires forall k :: k in keys ==> k in c && c[k] == 0
    ensures KeySum(keys, c) == 0
  {
    if keys != [] {
      KeySumZero(keys[1..], c);
    }
  }

  /**
   * Whatever the report says, every record the code as written imports
   * has all eight counters at 0, and so a total of 0.
   */
  lemma AsWrittenImportsOnlyZeros(content: string)
    requires Import(AsWritten, content).Ok?
    ensures forall r :: r in Import(AsWritten, content).value ==> r.counters == Zeros() && Total(r.counters) == 0
  {
    AsWrittenRunKeepsZero(Start, Split(content, '\n'));
    KeySumZero(Keys, Zeros());
  }

  // ---------------------------------------------------------------------
  // Counter names and the stored total
  // ---------------------------------------------------------------------

  lemma KeysDistinct()
    ensures forall a, b :: 0 <= a < b < |Keys| ==> Keys[a] != Keys[b]
  {
  }

  lemma {:induction false} KeySumUpdate(keys: seq<string>, c: map<string, int>, k: string, v: int)
    requires forall a, b :: 0 <= a < b < |keys| ==> keys[a] != keys[b]
    requires forall x :: x in keys ==> x in c
    ensures KeySum(keys, c[k := v]) == KeySum(keys, c) + (if k in keys then v - c[k] else 0)
  {
    if keys != [] {
      assert forall x :: x in keys[1..] ==> x in keys;
      KeySumUpdate(keys[1..], c, k, v);
      assert k in keys <==> k == keys[0] || k in keys[1..];
      assert keys[0] !in keys[1..] by {
        forall j | 0 <= j < |keys[1..]| ensures keys[1..][j] != keys[0] {
          assert keys[1..][j] == keys[j + 1];
        }
      }
    }
  }

  /** Storing a status value under its counter name moves the total by the change in that counter. */
  lemma TotalCountsEveryStatus(c: map<string, int>, i: int, v: int)
    requires forall k :: k in Keys ==> k in c
    requires 0 <= i < |Keys|
    ensures Total(c[Keys[i] := v]) == Total(c) - c[Keys[i]] + v
  {
    KeysDistinct();
    KeySumUpdate(Keys, c, Keys[i], v);
  }

  /**
   * `status.lower()` is the counter name for six statuses, but ANÁLISE and
   * PRIORIDADE TOTAL lower to names the total never reads.
   */
  lemma LoweredKeyUncounted(c: map<string, int>, v: int)
    requires forall k :: k in Keys ==> k in c
    ensures forall i :: 0 <= i < |Lowered| && i != 1 && i != 4 ==> Lowered[i] == Keys[i]
    ensures Lowered[1] !in Keys && Lowered[4] !in Keys
    ensures Total(c[Lowered[1] := v]) == Total(c) && Total(c[Lowered[4] := v]) == Total(c)
  {
    KeysDistinct();
    KeySumUpdate(Keys, c, Lowered[1], v);
    KeySumUpdate(Keys, c, Lowered[4], v);
  }

  // ---------------------------------------------------------------------
  // The corrected reading of status lines
  // ---------------------------------------------------------------------

  lemma StatusesDistinct()
    ensures forall a, b :: 0 <= a < b < |Statuses| ==> Statuses[a] != Statuses[b]
  {
  }

  /** The line `STATUS: n` for the `i`-th status. */
  function StatusText(i: nat, n: int): string
    requires i < |Statuses|
  {
    Statuses[i] + ": " + IntToString(n)
  }

  lemma StatusesPlain()
    ensures forall i :: 0 <= i < |Statuses| ==>
              Plain(Statuses[i]) && Statuses[i] != [] && Statuses[i][0] in "VAPC" && Statuses[i][|Statuses[i]| - 1] != ' '
  {
  }

  /** Each status is its own cleaned form: no surrounding spaces, already upper-case, no colon. */
  lemma StatusClean(i: nat)
    requires i < |Statuses|
    ensures Strip(Statuses[i]) == Statuses[i] && Upper(Statuses[i]) == Statuses[i]
    ensures ':' !in Statuses[i] && Statuses[i] != [] && Statuses[i][0] in "VAPC"
  {
    StatusesPlain();
    PlainClean(Statuses[i]);
  }

  lemma StatusTextSplit(i: nat, n: int)
    requires i < |Statuses|
    ensures Split(StatusText(i, n), ':') == [Statuses[i], " " + IntToString(n)]
  {
    var s, d := Statuses[i], IntToString(n);
    assert ':' !in s by {
      StatusClean(i);
    }
    assert ':' !in " " + d by {
      SeparatorNotInInt(n, ':');
    }
    assert StatusText(i, n) == s + [':'] + (" " + d);
    SplitAtFirst(s, " " + d, ':');
    SplitWithout(" " + d, ':');
  }

  lemma StatusTextTrimmed(i: nat, n: int)
    requires i < |Statuses|
    ensures Strip(StatusText(i, n)) == StatusText(i, n)
    ensures !StartsWith(StatusText(i, n), "GRUPO: ")
  {
    var s, d := Statuses[i], IntToString(n);
    var l := StatusText(i, n);
    StatusClean(i);
    assert l[0] == s[0] && l[|l| - 1] == d[|d| - 1];
    StripOfTrimmed(l);
    DifferentFirst(l, "GRUPO: ");
  }

  lemma DifferentFirst(s: string, p: string)
    requires s != [] && p != [] && s[0] != p[0]
    ensures !StartsWith(s, p)
  {
    if |p| <= |s| {
      assert s[..|p|][0] == s[0];
    }
  }

  lemma IndexOfStatus(i: nat)
    requires i < |Statuses|
    ensures IndexOf(Statuses, Statuses[i]) == i
  {
    StatusesDistinct();
  }

  /** `int(" " + str(n)) == n`. */
  lemma ParsePadded(n: int)
    ensures ParseInt(" " + IntToString(n)) == Some(n)
  {
    var d := IntToString(n);
    StripOfPadded(" ", d, []);
    assert " " + d + [] == " " + d;
    StripOfTrimmed(d);
    IntRoundTrip(n);
  }

  /** `STATUS: n` is recognised as the `i`-th status with value `n`. */
  lemma StatusLineOf(i: nat, n: int)
    requires i < |Statuses|
    ensures Strip(StatusText(i, n)) == StatusText(i, n)
    ensures !StartsWith(StatusText(i, n), "GRUPO: ")
    ensures StatusLine(StatusText(i, n)) == Some((i, n))
  {
    StatusTextSplit(i, n);
    StatusTextTrimmed(i, n);
    StatusClean(i);
    IndexOfStatus(i);
    ParsePadded(n);
  }

  /**
   * With a record open, the corrected import stores the value of a
   * `STATUS: n` line under that status's counter of the last record and
   * changes nothing else.
   */
  lemma CorrectedReadsStatusLine(st: Reader, i: nat, n: int)
    requires i < |Statuses| && st.records != []
    ensures var last := st.records[|st.records| - 1];
            Step(Corrected, st, StatusText(i, n))
            == Ok(st.(records := st.records[|st.records| - 1 := last.(counters := last.counters[Keys[i] := n])]))
  {
    StatusLineOf(i, n);
  }

  /** On every line that is not a status line the correction changes nothing. */
  lemma CorrectedAgreesElsewhere(st: Reader, line: string)
    requires StatusLine(Strip(line)).None?
    ensures Step(Corrected, st, line) == Step(AsWritten, st, line)
  {
    var l := Strip(line);
    if !StartsWith(l, "GRUPO: ") && !CollaboratorLine(l) && |Split(l, ':')| == 2 {
      ColonLineNamesNoStatus(l);
    }
  }

  // ---------------------------------------------------------------------
  // A report whose status line the code as written misreads
  // ---------------------------------------------------------------------

  const Sample: string := "GRUPO: JULIO\nANA\nAPROVADO: 3"

  /** The sample is its three lines joined by newlines. */
  lemma SampleShape()
    ensures Sample == "GRUPO: JULIO" + ['\n'] + ("ANA" + ['\n'] + "APROVADO: 3")
  {
  }

  lemma SampleTail()
    ensures Split("ANA" + ['\n'] + "APROVADO: 3", '\n') == ["ANA", "APROVADO: 3"]
  {
    assert '\n' !in "ANA";
    assert '\n' !in "APROVADO: 3";
    SplitAtFirst("ANA", "APROVADO: 3", '\n');
    SplitWithout("APROVADO: 3", '\n');
  }

  lemma SampleLines()
    ensures Split(Sample, '\n') == ["GRUPO: JULIO", "ANA", "APROVADO: 3"]
  {
    SampleShape();
    assert '\n' !in "GRUPO: JULIO";
    SplitAtFirst("GRUPO: JULIO", "ANA" + ['\n'] + "APROVADO: 3", '\n');
    SampleTail();
  }

  lemma GroupLineRead(version: Version, st: Reader)
    ensures Step(version, st, "GRUPO: JULIO") == Ok(st.(group := Some("JULIO")))
  {
    var l := "GRUPO: JULIO";
    assert Trimmed(l);
    StripOfTrimmed(l);
    assert l[..7] == "GRUPO: ";
    assert ReplaceAll(l, "GRUPO: ", "") == "JULIO" by {
      assert l[7..] == "JULIO";
    }
    assert Trimmed("JULIO");
    StripOfTrimmed("JULIO");
  }

  lemma AnaLineRead(version: Version, st: Reader)
    ensures Step(version, st, "ANA") == Ok(Open(st, "ANA"))
  {
    var l := "ANA";
    assert Trimmed(l);
    StripOfTrimmed(l);
    DifferentFirst(l, "GRUPO: ");
    assert ':' !in l;
    SplitWithout(l, ':');
    assert CollaboratorLine(l) by {
      DifferentFirst(l, " ");
      DifferentFirst(l, "=");
      DifferentFirst(l, "-");
      DifferentFirst(l, "GRUPO:");
      DifferentFirst(l, "RELATÓRIO");
    }
  }

  lemma AprovadoLine()
    ensures "APROVADO: 3" == StatusText(5, 3)
    ensures CollaboratorLine("APROVADO: 3")
  {
    assert IntToString(3) == "3";
    var l := "APROVADO: 3";
    DifferentFirst(l, " ");
    DifferentFirst(l, "=");
    DifferentFirst(l, "-");
    DifferentFirst(l, "GRUPO:");
    DifferentFirst(l, "RELATÓRIO");
  }

  /** Running three lines is running each of them in turn. */
  lemma RunThree(version: Version, st: Reader, a: string, b: string, c: string)
    requires Step(version, st, a).Ok?
    requires Step(version, Step(version, st, a).value, b).Ok?
    ensures Run(version, st, [a, b, c])
            == Step(version, Step(version, Step(version, st, a).value, b).value, c)
  {
    var lines := [a, b, c];
    assert lines[1..] == [b, c] && lines[1..][1..] == [c] && lines[1..][1..][1..] == [];
    var r := Step(version, Step(version, Step(version, st, a).value, b).value, c);
    assert Run(version, Step(version, Step(version, st, a).value, b).value, [c]) == r by {
      match r
      case Ok(_) =>
      case Err(_) =>
    }
  }

  /** The sample up to ANA's line: group JULIO, one record for ANA. */
  const AfterAna: Reader := Reader(Some("JULIO"), Some("ANA"), [Record("JULIO", "ANA", Zeros())])

  lemma SampleHead(version: Version)
    ensures Step(version, Start, "GRUPO: JULIO").Ok?
    ensures Step(version, Step(version, Start, "GRUPO: JULIO").value, "ANA") == Ok(AfterAna)
  {
    GroupLineRead(version, Start);
    var s1 := Start.(group := Some("JULIO"));
    AnaLineRead(version, s1);
    assert s1.group.value != [];
    assert Open(s1, "ANA") == AfterAna by {
      assert s1.records + [Record("JULIO", "ANA", Zeros())] == [Record("JULIO", "ANA", Zeros())];
    }
  }

  /** The sample's three lines, and what precedes the status line. */
  lemma SampleRun(version: Version)
    ensures Run(version, Start, Split(Sample, '\n')) == Step(version, AfterAna, "APROVADO: 3")
  {
    SampleLines();
    SampleHead(version);
    RunThree(version, Start, "GRUPO: JULIO", "ANA", "APROVADO: 3");
  }

  /**
   * Read by the code as written, `APROVADO: 3` opens a second record
   * for a collaborator called "APROVADO: 3", and ANA's APROVADO counter
   * stays 0.
   */
  lemma AsWrittenMisreadsSample()
    ensures Import(AsWritten, Sample)
            == Ok([Record("JULIO", "ANA", Zeros()), Record("JULIO", "APROVADO: 3", Zeros())])
  {
    SampleRun(AsWritten);
    AsWrittenOpensOnStatus();
  }

  /** The code as written takes the status line for a collaborator's name. */
  lemma AsWrittenOpensOnStatus()
    ensures Step(AsWritten, AfterAna, "APROVADO: 3")
            == Ok(AfterAna.(collaborator := Some("APROVADO: 3"),
                            records := [Record("JULIO", "ANA", Zeros()), Record("JULIO", "APROVADO: 3", Zeros())]))
  {
    AprovadoLine();
    AsWrittenOpensOnEveryStatus(AfterAna, 5, 3);
    assert AfterAna.records + [Record("JULIO", "APROVADO: 3", Zeros())]
           == [Record("JULIO", "ANA", Zeros()), Record("JULIO", "APROVADO: 3", Zeros())];
  }

  /**
   * As written, every `STATUS: n` line opens a record for a collaborator
   * named after the line itself.
   */
  lemma AsWrittenOpensOnEveryStatus(st: Reader, i: nat, n: int)
    requires i < |Statuses|
    ensures Step(AsWritten, st, StatusText(i, n)) == Ok(Open(st, StatusText(i, n)))
  {
    var l := StatusText(i, n);
    StatusTextTrimmed(i, n);
    StatusClean(i);
    assert l[0] == Statuses[i][0];
    DifferentFirst(l, " ");
    DifferentFirst(l, "=");
    DifferentFirst(l, "-");
    DifferentFirst(l, "GRUPO:");
    DifferentFirst(l, "RELATÓRIO");
  }

  /** Read as intended, the same report gives ANA an APROVADO counter of 3. */
  lemma CorrectedReadsSample()
    ensures Import(Corrected, Sample) == Ok([Record("JULIO", "ANA", Zeros()["aprovado" := 3])])
  {
    SampleRun(Corrected);
    CorrectedFillsAna();
  }

  /** The corrected import stores the status line's value in ANA's record. */
  lemma CorrectedFillsAna()
    ensures Step(Corrected, AfterAna, "APROVADO: 3")
            == Ok(AfterAna.(records := [Record("JULIO", "ANA", Zeros()["aprovado" := 3])]))
  {
    AprovadoLine();
    CorrectedReadsStatusLine(AfterAna, 5, 3);
    var ana := Record("JULIO", "ANA", Zeros());
    assert AfterAna.records[0 := ana.(counters := ana.counters[Keys[5] := 3])]
           == [Record("JULIO", "ANA", Zeros()["aprovado" := 3])];
  }
}
