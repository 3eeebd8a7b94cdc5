/**
 * `validar_dados_antes_geracao` of `static/analisar_dados_v5.py`: before the
 * reports are written, every collaborator's count tables are completed with
 * the specific statuses they lack, and the run is refused when a
 * collaborator lacks a critical status that someone else uses.
 */
module Validation {
  import opened Tally
  import opened Analyser

  /** A collaborator entry together with the group it was loaded under. */
  datatype Slot = Slot(group: string, entry: Entry)

  /** `status_criticos`. */
  const Critical: set<string> := {"APROVADO", "PENDENTE", "VERIFICADO"}

  /** The collaborator entries of one group, in order. */
  function GroupSlots(g: Group): (ss: seq<Slot>)
    ensures |ss| == |g.entries|
    ensures forall k :: 0 <= k < |ss| ==> ss[k] == Slot(g.name, g.entries[k])
  {
    seq(|g.entries|, k requires 0 <= k < |g.entries| => Slot(g.name, g.entries[k]))
  }

  /** The collaborator entries of all groups, in iteration order. */
  function Slots(groups: seq<Group>): seq<Slot> {
    if groups == [] then [] else GroupSlots(groups[0]) + Slots(groups[1..])
  }

  /** A slot names a group and one of its entries. */
  lemma {:induction false} SlotsMembers(groups: seq<Group>, s: Slot)
    ensures s in Slots(groups) <==> exists g :: g in groups && s.group == g.name && s.entry in g.entries
  {
    if groups != [] {
      var g := groups[0];
      SlotsMembers(groups[1..], s);
      assert s in GroupSlots(g) <==> s.group == g.name && s.entry in g.entries by {
        if s.group == g.name && s.entry in g.entries {
          var k :| 0 <= k < |g.entries| && g.entries[k] == s.entry;
          assert GroupSlots(g)[k] == s;
        }
      }
      assert forall h :: h in groups <==> h == g || h in groups[1..] by {
        assert groups == [g] + groups[1..];
      }
    }
  }

  /** `status_em_uso`: every status some collaborator has a count for. */
  function InUse(slots: seq<Slot>): (u: set<string>)
    ensures forall st :: st in u <==> exists k :: 0 <= k < |slots| && st in slots[k].entry.metrics.statusCounts
  {
    if slots == [] then {}
    else
      var rest := InUse(slots[1..]);
      assert forall k :: 1 <= k < |slots| ==> slots[k] == slots[1..][k - 1];
      slots[0].entry.metrics.statusCounts.Keys + rest
  }

  /** `status_faltantes`: the specific statuses a collaborator has no count for. */
  function Missing(m: SheetMetrics): set<string> {
    SpecificSet - m.statusCounts.Keys
  }

  /** `status_faltantes_relevantes`: the missing ones that someone uses. */
  function Relevant(m: SheetMetrics, inUse: set<string>): set<string> {
    Missing(m) * inUse
  }

  /** The collaborator lacks a critical status that is in use. */
  predicate CriticalGap(s: Slot, inUse: set<string>) {
    Relevant(s.entry.metrics, inUse) * Critical != {}
  }

  /**
   * Completing one collaborator's tables: every missing specific status is
   * set to 0 in both `status_counts` and `metricas_diarias`.
   */
  function Fill(m: SheetMetrics): (r: SheetMetrics)
    ensures r.total == m.total
    ensures r.statusCounts.Keys == m.statusCounts.Keys + SpecificSet
    ensures forall k :: k in m.statusCounts ==> r.statusCounts[k] == m.statusCounts[k]
    ensures forall k :: k in SpecificSet && k !in m.statusCounts ==> r.statusCounts[k] == 0 && k in r.daily && r.daily[k] == 0
    ensures r.daily.Keys == m.daily.Keys + Missing(m)
    ensures forall k :: k in m.daily && k !in Missing(m) ==> r.daily[k] == m.daily[k]
  {
    var zeros := map k | k in Missing(m) :: 0;
    SheetMetrics(m.total, m.statusCounts + zeros, m.daily + zeros)
  }

  /** The groups with every entry completed. */
  function FillAll(groups: seq<Group>): (r: seq<Group>)
    ensures |r| == |groups|
    ensures forall i :: 0 <= i < |groups| ==>
              r[i].name == groups[i].name && |r[i].entries| == |groups[i].entries|
              && forall j :: 0 <= j < |groups[i].entries| ==>
                   r[i].entries[j] == Entry(groups[i].entries[j].name, Fill(groups[i].entries[j].metrics))
  {
    seq(|groups|, i requires 0 <= i < |groups| =>
      Group(groups[i].name, seq(|groups[i].entries|, j requires 0 <= j < |groups[i].entries| =>
        Entry(groups[i].entries[j].name, Fill(groups[i].entries[j].metrics)))))
  }

  /**
   * `status_faltantes_por_colaborador`, with the key a slot is filed
   * under: the entries are visited in order, and each one with relevant
   * missing statuses (over)writes its key.
   */
  function Gaps<K>(slots: seq<Slot>, inUse: set<string>, key: Slot -> K): (m: map<K, set<string>>)
    ensures forall k :: k in m ==> m[k] != {}
  {
    if slots == [] then map[]
    else
      var init := slots[..|slots| - 1];
      var last := slots[|slots| - 1];
      var m := Gaps(init, inUse, key);
      var rel := Relevant(last.entry.metrics, inUse);
      if rel != {} then m[key(last) := rel] else m
  }

  /** Some filed collaborator lacks a critical status: `tem_status_critico`. */
  predicate HasCritical<K>(gaps: map<K, set<string>>) {
    exists k :: k in gaps && gaps[k] * Critical != {}
  }

  /** The key the code files a collaborator's gaps under: the name alone. */
  function NameKey(s: Slot): string {
    s.entry.name
  }

  /** The key that names one entry: the group and the collaborator. */
  function PairKey(s: Slot): (string, string) {
    (s.group, s.entry.name)
  }

  /** Whether the run may go on, with the gaps filed under `key`. */
  predicate Verdict<K(==)>(groups: seq<Group>, key: Slot -> K) {
    var slots := Slots(groups);
    !HasCritical(Gaps(slots, InUse(slots), key))
  }

  /** The completed groups and the verdict. */
  datatype Validated = Validated(groups: seq<Group>, ok: bool)

  /**
   * `validar_dados_antes_geracao` as written: the gaps are filed under the
   * collaborator's name alone.
   */
  function ValidateAsWritten(groups: seq<Group>): (r: Validated)
    ensures r.groups == FillAll(groups)
  {
    Validated(FillAll(groups), Verdict(groups, NameKey))
  }

  /** The gaps filed under the pair (group, collaborator), which names one entry. */
  function Validate(groups: seq<Group>): (r: Validated)
    ensures r.groups == FillAll(groups)
  {
    Validated(FillAll(groups), Verdict(groups, PairKey))
  }

  /** A refusal always points at a real critical gap, whatever the key. */
  lemma RefusalHasGap<K>(slots: seq<Slot>, inUse: set<string>, key: Slot -> K)
    requires HasCritical(Gaps(slots, inUse, key))
    ensures exists i :: 0 <= i < |slots| && CriticalGap(slots[i], inUse)
  {
    HasCriticalExact(slots, inUse, key);
  }

  /** No two slots are filed under the same key. */
  predicate KeysUnique<K(==)>(slots: seq<Slot>, key: Slot -> K) {
    forall a, b :: 0 <= a < b < |slots| ==> key(slots[a]) != key(slots[b])
  }

  /**
   * Slot `i` has relevant gaps and no later slot with gaps shares its key:
   * it is the last writer of its key's entry.
   */
  predicate LastFiled<K(==)>(slots: seq<Slot>, inUse: set<string>, key: Slot -> K, i: int) {
    && 0 <= i < |slots|
    && Relevant(slots[i].entry.metrics, inUse) != {}
    && forall j :: i < j < |slots| && key(slots[j]) == key(slots[i]) ==> Relevant(slots[j].entry.metrics, inUse) == {}
  }

  /** One more slot: its gaps, when there are any, (over)write its key. */
  lemma GapsStep<K>(slots: seq<Slot>, inUse: set<string>, key: Slot -> K)
    requires slots != []
    ensures var last := slots[|slots| - 1];
            var m := Gaps(slots[..|slots| - 1], inUse, key);
            Gaps(slots, inUse, key) == if Relevant(last.entry.metrics, inUse) != {} then m[key(last) := Relevant(last.entry.metrics, inUse)] else m
  {
  }

  /** Each key holds the gaps of the last slot with gaps filed under it. */
  lemma {:induction false} GapsLastWriter<K>(slots: seq<Slot>, inUse: set<string>, key: Slot -> K, i: int)
    requires LastFiled(slots, inUse, key, i)
    ensures key(slots[i]) in Gaps(slots, inUse, key)
    ensures Gaps(slots, inUse, key)[key(slots[i])] == Relevant(slots[i].entry.metrics, inUse)
  {
    var n := |slots|;
    GapsStep(slots, inUse, key);
    if i < n - 1 {
      LastFiledInit(slots, inUse, key, i);
      GapsLastWriter(slots[..n - 1], inUse, key, i);
      assert key(slots[n - 1]) != key(slots[i]) || Relevant(slots[n - 1].entry.metrics, inUse) == {};
    }
  }

  /** A last writer before the final slot is a last writer of the slots before it too. */
  lemma LastFiledInit<K>(slots: seq<Slot>, inUse: set<string>, key: Slot -> K, i: int)
    requires LastFiled(slots, inUse, key, i) && i < |slots| - 1
    ensures slots[..|slots| - 1][i] == slots[i]
    ensures LastFiled(slots[..|slots| - 1], inUse, key, i)
  {
    var init := slots[..|slots| - 1];
    forall j | i < j < |init| && key(init[j]) == key(init[i])
      ensures Relevant(init[j].entry.metrics, inUse) == {}
    {
      assert init[j] == slots[j];
    }
  }

  /** Every key on file was written by a last writer. */
  lemma {:induction false} GapsFiledLast<K>(slots: seq<Slot>, inUse: set<string>, key: Slot -> K, k: K)
    requires k in Gaps(slots, inUse, key)
    ensures exists i :: LastFiled(slots, inUse, key, i) && key(slots[i]) == k
  {
    var n := |slots|;
    var last := slots[n - 1];
    GapsStep(slots, inUse, key);
    if Relevant(last.entry.metrics, inUse) != {} && key(last) == k {
      assert LastFiled(slots, inUse, key, n - 1);
    } else {
      var init := slots[..n - 1];
      GapsFiledLast(init, inUse, key, k);
      var i :| LastFiled(init, inUse, key, i) && key(init[i]) == k;
      assert init[i] == slots[i];
      assert LastFiled(slots, inUse, key, i) by {
        forall j | i < j < n && key(slots[j]) == key(slots[i])
          ensures Relevant(slots[j].entry.metrics, inUse) == {}
        {
          if j < n - 1 {
            assert init[j] == slots[j];
          }
        }
      }
    }
  }

  /** The last writer of some key lacks a critical status in use. */
  predicate LastWriterCritical<K(==)>(slots: seq<Slot>, inUse: set<string>, key: Slot -> K) {
    exists i :: 0 <= i < |slots| && LastFiled(slots, inUse, key, i) && CriticalGap(slots[i], inUse)
  }

  /** Some key holds a critical gap exactly when some last writer has one. */
  lemma HasCriticalExact<K>(slots: seq<Slot>, inUse: set<string>, key: Slot -> K)
    ensures HasCritical(Gaps(slots, inUse, key)) <==> LastWriterCritical(slots, inUse, key)
  {
    var gaps := Gaps(slots, inUse, key);
    if HasCritical(gaps) {
      var k :| k in gaps && gaps[k] * Critical != {};
      GapsFiledLast(slots, inUse, key, k);
      var i :| LastFiled(slots, inUse, key, i) && key(slots[i]) == k;
      GapsLastWriter(slots, inUse, key, i);
      assert CriticalGap(slots[i], inUse);
    }
    forall i | LastFiled(slots, inUse, key, i) && CriticalGap(slots[i], inUse)
      ensures HasCritical(gaps)
    {
      GapsLastWriter(slots, inUse, key, i);
      assert gaps[key(slots[i])] * Critical != {};
    }
  }

  /**
   * Whatever the key, the run is refused exactly when the last collaborator
   * with gaps filed under some key lacks a critical status in use.
   */
  lemma VerdictExact<K>(groups: seq<Group>, key: Slot -> K)
    ensures !Verdict(groups, key) <==> LastWriterCritical(Slots(groups), InUse(Slots(groups)), key)
  {
    var slots := Slots(groups);
    var inUse := InUse(slots);
    assert Verdict(groups, key) == !HasCritical(Gaps(slots, inUse, key));
    HasCriticalExact(slots, inUse, key);
  }

  /**
   * The code as written, which files gaps under the collaborator's name,
   * refuses exactly when, for some name, the last collaborator of that name
   * with gaps lacks a critical status in use.
   */
  lemma AsWrittenExact(groups: seq<Group>)
    ensures !ValidateAsWritten(groups).ok <==> LastWriterCritical(Slots(groups), InUse(Slots(groups)), NameKey)
  {
    VerdictExact(groups, NameKey);
  }

  /** When no two slots share a key, each slot with a gap is filed under its own key. */
  lemma {:induction false} GapsOfUniqueKeys<K>(slots: seq<Slot>, inUse: set<string>, key: Slot -> K, i: int)
    requires KeysUnique(slots, key)
    requires 0 <= i < |slots| && Relevant(slots[i].entry.metrics, inUse) != {}
    ensures key(slots[i]) in Gaps(slots, inUse, key)
    ensures Gaps(slots, inUse, key)[key(slots[i])] == Relevant(slots[i].entry.metrics, inUse)
  {
    assert LastFiled(slots, inUse, key, i);
    GapsLastWriter(slots, inUse, key, i);
  }

  /** Group names are unique, and so are collaborator names within a group: both come from dictionaries. */
  predicate WellKeyed(groups: seq<Group>) {
    && (forall a, b :: 0 <= a < b < |groups| ==> groups[a].name != groups[b].name)
    && (forall g, a, b :: g in groups && 0 <= a < b < |g.entries| ==> g.entries[a].name != g.entries[b].name)
  }

  /** In well-keyed groups, no two slots share a (group, collaborator) pair. */
  lemma {:induction false} SlotKeysUnique(groups: seq<Group>)
    requires WellKeyed(groups)
    ensures KeysUnique(Slots(groups), PairKey)
  {
    if groups != [] {
      var g := groups[0];
      var here := GroupSlots(g);
      var rest := Slots(groups[1..]);
      assert WellKeyed(groups[1..]) by {
        assert forall h :: h in groups[1..] ==> h in groups;
      }
      SlotKeysUnique(groups[1..]);
      forall s | s in rest ensures s.group != g.name {
        SlotsMembers(groups[1..], s);
        var h :| h in groups[1..] && s.group == h.name && s.entry in h.entries;
        var b :| 0 <= b < |groups[1..]| && groups[1..][b] == h;
        assert groups[b + 1] == h;
      }
      var ss := here + rest;
      forall a, b | 0 <= a < b < |ss|
        ensures PairKey(ss[a]) != PairKey(ss[b])
      {
        if b < |here| {
          assert ss[a] == Slot(g.name, g.entries[a]) && ss[b] == Slot(g.name, g.entries[b]);
        } else if a < |here| {
          assert ss[b] == rest[b - |here|] && ss[b] in rest;
        } else {
          assert ss[a] == rest[a - |here|] && ss[b] == rest[b - |here|];
          assert 0 <= a - |here| < b - |here| < |rest|;
        }
      }
    }
  }

  /**
   * The corrected validation refuses exactly when some collaborator lacks a
   * critical status that is in use, and every collaborator's tables are
   * completed with all eleven specific statuses.
   */
  lemma ValidateExact(groups: seq<Group>)
    requires WellKeyed(groups)
    ensures !Validate(groups).ok <==>
              exists i :: 0 <= i < |Slots(groups)| && CriticalGap(Slots(groups)[i], InUse(Slots(groups)))
  {
    var slots := Slots(groups);
    if !Validate(groups).ok {
      RefusalHasGap(slots, InUse(slots), PairKey);
    }
    forall i | 0 <= i < |slots| && CriticalGap(slots[i], InUse(slots))
      ensures !Validate(groups).ok
    {
      GapRefused(groups, i);
    }
  }

  /** A collaborator with a critical gap makes the corrected validation refuse. */
  lemma GapRefused(groups: seq<Group>, i: int)
    requires WellKeyed(groups)
    requires 0 <= i < |Slots(groups)| && CriticalGap(Slots(groups)[i], InUse(Slots(groups)))
    ensures !Validate(groups).ok
  {
    var slots := Slots(groups);
    var inUse := InUse(slots);
    var gaps := Gaps(slots, inUse, PairKey);
    SlotKeysUnique(groups);
    GapsOfUniqueKeys(slots, inUse, PairKey, i);
    assert gaps[PairKey(slots[i])] * Critical != {};
    assert HasCritical(gaps);
  }

  /** The code as written refuses only for a real critical gap. */
  lemma AsWrittenRefusalSound(groups: seq<Group>)
    ensures !ValidateAsWritten(groups).ok ==>
              exists i :: 0 <= i < |Slots(groups)| && CriticalGap(Slots(groups)[i], InUse(Slots(groups)))
  {
    var slots := Slots(groups);
    if !ValidateAsWritten(groups).ok {
      RefusalHasGap(slots, InUse(slots), NameKey);
    }
  }

  /** After validation every collaborator has a count, possibly 0, for every specific status. */
  lemma FilledTablesComplete(groups: seq<Group>, i: int, j: int)
    requires 0 <= i < |groups| && 0 <= j < |groups[i].entries|
    ensures SpecificSet <= Validate(groups).groups[i].entries[j].metrics.statusCounts.Keys
    ensures Validate(groups).groups[i].entries[j].name == groups[i].entries[j].name
  {
    assert Validate(groups).groups[i].entries[j].metrics == Fill(groups[i].entries[j].metrics);
  }

  /** An ANA of group JULIO without an APROVADO count. */
  const JulioAna := Entry("ANA", SheetMetrics(3, map["PENDENTE" := 1, "VERIFICADO" := 1, "CANCELADO" := 1], map[]))

  /** An ANA of group LEANDRO without a CANCELADO count. */
  const LeandroAna := Entry("ANA", SheetMetrics(3, map["APROVADO" := 1, "PENDENTE" := 1, "VERIFICADO" := 1], map[]))

  const TwoAnas := [Group("JULIO", [JulioAna]), Group("LEANDRO", [LeandroAna])]

  const TwoAnasInUse: set<string> := {"PENDENTE", "VERIFICADO", "CANCELADO", "APROVADO"}

  lemma TwoAnasSlots()
    ensures Slots(TwoAnas) == [Slot("JULIO", JulioAna), Slot("LEANDRO", LeandroAna)]
    ensures InUse(Slots(TwoAnas)) == TwoAnasInUse
  {
    var g0, g1 := TwoAnas[0], TwoAnas[1];
    assert GroupSlots(g0) == [Slot("JULIO", JulioAna)];
    assert GroupSlots(g1) == [Slot("LEANDRO", LeandroAna)];
    assert TwoAnas[1..] == [g1] && TwoAnas[1..][1..] == [];
    assert Slots(TwoAnas[1..]) == [Slot("LEANDRO", LeandroAna)];
    var slots := Slots(TwoAnas);
    assert slots[1..] == [slots[1]] && slots[1..][1..] == [];
    assert InUse(slots[1..]) == LeandroAna.metrics.statusCounts.Keys;
  }

  lemma TwoAnasRelevant()
    ensures Relevant(JulioAna.metrics, TwoAnasInUse) == {"APROVADO"}
    ensures Relevant(LeandroAna.metrics, TwoAnasInUse) == {"CANCELADO"}
  {
    assert "APROVADO" in SpecificSet && "CANCELADO" in SpecificSet by {
      assert Specific[5] == "APROVADO" && Specific[7] == "CANCELADO";
    }
  }

  /** Two slots filed under one key: the second one's gaps are all that is left. */
  lemma GapsOfSharedKey<K>(a: Slot, b: Slot, inUse: set<string>, key: Slot -> K)
    requires Relevant(a.entry.metrics, inUse) != {} && Relevant(b.entry.metrics, inUse) != {}
    requires key(a) == key(b)
    ensures Gaps([a, b], inUse, key) == map[key(b) := Relevant(b.entry.metrics, inUse)]
  {
    assert [a, b][..1] == [a] && [a][..0] == [];
    GapsStep([a, b], inUse, key);
    GapsStep([a], inUse, key);
  }

  /** Gaps filed under one key, none of them critical, make no refusal. */
  lemma NoCriticalIn<K>(k: K, gaps: set<string>)
    requires gaps * Critical == {}
    ensures !HasCritical(map[k := gaps])
  {
  }

  lemma TwoAnasByName()
    ensures Gaps(Slots(TwoAnas), TwoAnasInUse, NameKey) == map["ANA" := {"CANCELADO"}]
  {
    TwoAnasSlots();
    TwoAnasRelevant();
    GapsOfSharedKey(Slot("JULIO", JulioAna), Slot("LEANDRO", LeandroAna), TwoAnasInUse, NameKey);
  }

  lemma TwoAnasGap()
    ensures WellKeyed(TwoAnas)
    ensures CriticalGap(Slots(TwoAnas)[0], InUse(Slots(TwoAnas)))
  {
    TwoAnasWellKeyed();
    TwoAnasSlots();
    TwoAnasRelevant();
    assert "APROVADO" in Relevant(JulioAna.metrics, TwoAnasInUse) * Critical;
  }

  lemma TwoAnasWellKeyed()
    ensures WellKeyed(TwoAnas)
  {
    assert forall g :: g in TwoAnas ==> |g.entries| == 1;
  }

  lemma TwoAnasPass()
    ensures Verdict(TwoAnas, NameKey)
  {
    TwoAnasSlots();
    TwoAnasByName();
    assert "CANCELADO" !in Critical;
    NoCriticalIn("ANA", {"CANCELADO"});
  }

  /**
   * Two groups each with a collaborator called ANA.  The first ANA has no
   * APROVADO count although APROVADO is in use; the second lacks only
   * CANCELADO, and its gaps overwrite the first one's under the shared
   * name, so the code as written lets the run through.
   */
  lemma AsWrittenMissesGap()
    ensures WellKeyed(TwoAnas)
    ensures CriticalGap(Slots(TwoAnas)[0], InUse(Slots(TwoAnas)))
    ensures ValidateAsWritten(TwoAnas).ok
    ensures !Validate(TwoAnas).ok
  {
    TwoAnasGap();
    GapRefused(TwoAnas, 0);
    TwoAnasPass();
  }
}
