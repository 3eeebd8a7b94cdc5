/**
 * The totals of `gerar_relatorio_geral` in `static/analisar_dados_v5.py`:
 * per group and overall, one total per specific status (an absent count
 * counts as 0) and one record total.
 */
module Totals {
  import opened Tally
  import opened Analyser

  /** The count tables of a group's collaborators, in order. */
  function Tables(g: Group): (ts: seq<map<string, nat>>)
    ensures |ts| == |g.entries|
    ensures forall j :: 0 <= j < |ts| ==> ts[j] == g.entries[j].metrics.statusCounts
  {
    seq(|g.entries|, j requires 0 <= j < |g.entries| => g.entries[j].metrics.statusCounts)
  }

  /** The record totals of a group's collaborators, in order. */
  function Records(g: Group): (rs: seq<nat>)
    ensures |rs| == |g.entries|
    ensures forall j :: 0 <= j < |rs| ==> rs[j] == g.entries[j].metrics.total
  {
    seq(|g.entries|, j requires 0 <= j < |g.entries| => g.entries[j].metrics.total)
  }

  /** The count tables of every collaborator of every group. */
  function AllTables(groups: seq<Group>): seq<map<string, nat>> {
    if groups == [] then [] else AllTables(groups[..|groups| - 1]) + Tables(groups[|groups| - 1])
  }

  /** The record totals of every collaborator of every group. */
  function AllRecords(groups: seq<Group>): seq<nat> {
    if groups == [] then [] else AllRecords(groups[..|groups| - 1]) + Records(groups[|groups| - 1])
  }

  /** A group's totals: `totais_grupo` and `total_grupo_registros`. */
  datatype GroupTotals = GroupTotals(name: string, counts: map<string, nat>, records: nat)

  /** What the general report shows. */
  datatype Report = Report(groups: seq<GroupTotals>, totals: map<string, nat>, records: nat)

  /** A table with every specific status at 0: `{status: 0 for status in status_especificos}`. */
  function Zeros(): (t: map<string, nat>)
    ensures t.Keys == SpecificSet && forall s :: s in t ==> t[s] == 0
  {
    map s | s in SpecificSet :: 0
  }

  /** The loop over `status_especificos` adding one collaborator's counts. */
  function AddCounts(t: map<string, nat>, counts: map<string, nat>): (r: map<string, nat>)
    ensures r.Keys == t.Keys
    ensures forall s :: s in t ==> r[s] == t[s] + Get(counts, s)
  {
    map s | s in t :: t[s] + Get(counts, s)
  }

  /**
   * The loop over one group's collaborators: the group's totals start at 0
   * and each collaborator's counts are added both to them and to the
   * running consolidated totals.
   */
  method AddGroup(g: Group, totals: map<string, nat>, records: nat)
    returns (gt: GroupTotals, totals': map<string, nat>, records': nat)
    requires totals.Keys == SpecificSet
    ensures Summarises(gt, g)
    ensures totals'.Keys == SpecificSet
    ensures forall s :: s in SpecificSet ==> totals'[s] == totals[s] + gt.counts[s]
    ensures records' == records + gt.records
  {
    var counts := Zeros();
    var gr := 0;
    totals' := totals;
    records' := records;
    var j := 0;
    while j < |g.entries|
      invariant 0 <= j <= |g.entries|
      invariant counts.Keys == SpecificSet && totals'.Keys == SpecificSet
      invariant forall s :: s in SpecificSet ==> counts[s] == SumColumn(Tables(g)[..j], s)
      invariant forall s :: s in SpecificSet ==> totals'[s] == totals[s] + counts[s]
      invariant gr == Sum(Records(g)[..j])
      invariant records' == records + gr
    {
      var m := g.entries[j].metrics;
      EntryStep(g, j);
      counts := AddCounts(counts, m.statusCounts);
      totals' := AddCounts(totals', m.statusCounts);
      gr := gr + m.total;
      records' := records' + m.total;
      j := j + 1;
    }
    assert Tables(g)[..j] == Tables(g) && Records(g)[..j] == Records(g);
    gt := GroupTotals(g.name, counts, gr);
  }

  /** Taking one more collaborator adds its counts and its record total. */
  lemma EntryStep(g: Group, j: int)
    requires 0 <= j < |g.entries|
    ensures forall s :: SumColumn(Tables(g)[..j + 1], s)
                        == SumColumn(Tables(g)[..j], s) + Get(g.entries[j].metrics.statusCounts, s)
    ensures Sum(Records(g)[..j + 1]) == Sum(Records(g)[..j]) + g.entries[j].metrics.total
  {
    assert Tables(g)[..j + 1][..j] == Tables(g)[..j];
    assert Records(g)[..j + 1][..j] == Records(g)[..j];
  }

  /** `gt` holds the totals of group `g`: per status, the sum of its collaborators' counts. */
  predicate Summarises(gt: GroupTotals, g: Group) {
    && gt.name == g.name
    && gt.counts.Keys == SpecificSet
    && (forall s :: s in SpecificSet ==> gt.counts[s] == SumColumn(Tables(g), s))
    && gt.records == Sum(Records(g))
  }

  /** `totals` holds, per specific status, the sum over `tables`. */
  predicate Consolidates(totals: map<string, nat>, tables: seq<map<string, nat>>) {
    && totals.Keys == SpecificSet
    && forall s :: s in SpecificSet ==> totals[s] == SumColumn(tables, s)
  }

  /** The row of group totals for one status. */
  function GroupColumn(gts: seq<GroupTotals>, s: string): (c: seq<nat>)
    ensures |c| == |gts| && forall i :: 0 <= i < |c| ==> c[i] == Get(gts[i].counts, s)
  {
    seq(|gts|, i requires 0 <= i < |gts| => Get(gts[i].counts, s))
  }

  /**
   * `gerar_relatorio_geral` without the printing: each group's totals are
   * the sums over its collaborators, and the consolidated totals are the
   * sums over every collaborator of every group, which are also the sums
   * of the group totals.
   */
  method GeneralReport(groups: seq<Group>) returns (r: Report)
    ensures |r.groups| == |groups|
    ensures forall i :: 0 <= i < |groups| ==> Summarises(r.groups[i], groups[i])
    ensures Consolidates(r.totals, AllTables(groups))
    ensures forall s :: s in SpecificSet ==> r.totals[s] == Sum(GroupColumn(r.groups, s))
    ensures r.records == Sum(AllRecords(groups))
  {
    var totals := Zeros();
    var records := 0;
    var done: seq<GroupTotals> := [];
    var i := 0;
    while i < |groups|
      invariant 0 <= i <= |groups|
      invariant |done| == i
      invariant forall k :: 0 <= k < i ==> Summarises(done[k], groups[k])
      invariant Consolidates(totals, AllTables(groups[..i]))
      invariant records == Sum(AllRecords(groups[..i]))
    {
      var gt, totals', records' := AddGroup(groups[i], totals, records);
      GroupStep(groups, i, gt, totals, totals', records, records');
      totals, records := totals', records';
      done := done + [gt];
      i := i + 1;
    }
    assert groups[..i] == groups;
    TotalsAreGroupSums(groups, done, totals);
    r := Report(done, totals, records);
  }

  /** Consolidated totals are also the sums of the group totals. */
  lemma TotalsAreGroupSums(groups: seq<Group>, gts: seq<GroupTotals>, totals: map<string, nat>)
    requires |gts| == |groups| && forall k :: 0 <= k < |groups| ==> Summarises(gts[k], groups[k])
    requires Consolidates(totals, AllTables(groups))
    ensures forall s :: s in SpecificSet ==> totals[s] == Sum(GroupColumn(gts, s))
  {
    forall s | s in SpecificSet
      ensures totals[s] == Sum(GroupColumn(gts, s))
    {
      ConsolidatedIsSumOfGroups(groups, s);
      assert GroupColumn(gts, s) == GroupSums(groups, s);
    }
  }

  /** Adding a group's totals to the consolidation of the earlier groups consolidates one more group. */
  lemma GroupStep(groups: seq<Group>, i: int, gt: GroupTotals,
                  totals: map<string, nat>, totals': map<string, nat>, records: nat, records': nat)
    requires 0 <= i < |groups| && Summarises(gt, groups[i])
    requires Consolidates(totals, AllTables(groups[..i])) && records == Sum(AllRecords(groups[..i]))
    requires totals'.Keys == SpecificSet
    requires forall s :: s in SpecificSet ==> totals'[s] == totals[s] + gt.counts[s]
    requires records' == records + gt.records
    ensures Consolidates(totals', AllTables(groups[..i + 1]))
    ensures records' == Sum(AllRecords(groups[..i + 1]))
  {
    PrefixStep(groups, i);
  }

  /** Taking one more group adds its collaborators' tables and records. */
  lemma PrefixStep(groups: seq<Group>, i: int)
    requires 0 <= i < |groups|
    ensures forall s :: SumColumn(AllTables(groups[..i + 1]), s)
                        == SumColumn(AllTables(groups[..i]), s) + SumColumn(Tables(groups[i]), s)
    ensures Sum(AllRecords(groups[..i + 1])) == Sum(AllRecords(groups[..i])) + Sum(Records(groups[i]))
  {
    assert groups[..i + 1][..i] == groups[..i] && groups[..i + 1][i] == groups[i];
    forall s {
      SumColumnConcat(AllTables(groups[..i]), Tables(groups[i]), s);
    }
    SumConcat(AllRecords(groups[..i]), Records(groups[i]));
  }

  /** Each group's total for one status, group by group. */
  function GroupSums(groups: seq<Group>, s: string): (c: seq<nat>)
    ensures |c| == |groups| && forall i :: 0 <= i < |c| ==> c[i] == SumColumn(Tables(groups[i]), s)
  {
    seq(|groups|, i requires 0 <= i < |groups| => SumColumn(Tables(groups[i]), s))
  }

  /** Summing every collaborator at once equals summing the group sums. */
  lemma {:induction false} ConsolidatedIsSumOfGroups(groups: seq<Group>, s: string)
    ensures SumColumn(AllTables(groups), s) == Sum(GroupSums(groups, s))
  {
    if groups != [] {
      var init := groups[..|groups| - 1];
      ConsolidatedIsSumOfGroups(init, s);
      SumColumnConcat(AllTables(init), Tables(groups[|groups| - 1]), s);
      var sums := GroupSums(groups, s);
      assert sums[..|sums| - 1] == GroupSums(init, s);
    }
  }
}
