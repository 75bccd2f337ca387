/** What the published rows of a hypothesis say, told from the engine's result, the catalogue and the
    playbooks. */
module AdapterLaws {
  import opened Common
  import opened Evidence
  import opened RcaAdapter
  import opened RcaContracts
  import opened TypedGraph
  import EvidenceLaws
  import Explanation
  import Scoring

  /** The hypothesis' entry in the catalogue. */
  ghost predicate EntryIs(u: Setup, t: string, entry: Entry) {
    entry in u.catalogue.hypotheses && entry.hypothesisType == t
  }

  /** Every declared step is in the playbook catalogue, for this hypothesis type and this kind of entity. */
  ghost predicate StepsServe(u: Setup, entry: Entry, t: string, kind: string) {
    forall id :: id in entry.diagnosticSteps || id in entry.remediationSteps ==>
      id in u.playbooks && t in u.playbooks[id].hypothesisTypes && kind in u.playbooks[id].entityTypes
  }

  /** The first node of that id is of this kind. */
  ghost predicate OfKind(nodes: seq<TopologyNode>, x: Node, kind: string) {
    exists k :: 0 <= k < |nodes| && nodes[k] == TopologyNode(x, kind) && forall m :: 0 <= m < k ==> nodes[m].id != x
  }

  /** The row of a hypothesis. */
  ghost predicate RowTells(run: Explanation.Run, u: Setup, r: Ranked, row: HypothesisRow) {
    && row.id == u.digest(r.id) && row.runId == run.id && row.incidentId == run.incidentId
    && row.hypothesisType == r.hypothesisType && row.entity == r.entity
    && row.rank == r.rank && row.score == r.score && row.coverage == r.coverage
  }

  /** One recommendation for each declared step, the diagnostic ones first. */
  ghost predicate StepsTell(run: Explanation.Run, u: Setup, r: Ranked, entry: Entry, rows: seq<RecommendationRow>) {
    && |rows| == |entry.diagnosticSteps| + |entry.remediationSteps|
    && (forall k :: 0 <= k < |rows| ==> rows[k].runId == run.id && rows[k].incidentId == run.incidentId && rows[k].hypothesisId == u.digest(r.id))
    && (forall k :: 0 <= k < |entry.diagnosticSteps| ==> rows[k].stepId == entry.diagnosticSteps[k])
    && (forall k :: 0 <= k < |entry.remediationSteps| ==> rows[|entry.diagnosticSteps| + k].stepId == entry.remediationSteps[k])
  }

  /** What the evidence of a hypothesis is collected from: its expected requirements, its own conflicts
      when the engine drafted any, and its pattern ids. */
  ghost predicate EntryTells(c: Computation, r: Ranked, entry: Entry, e: EvidenceEntry) {
    && e.expected == entry.expectedEvidence
    && (e.applied.None? <==> forall d :: d in c.conflicts ==> d.hypothesisId != r.id)
    && (e.applied.Some? ==> forall effect :: effect in e.applied.value <==>
          exists d :: d in c.conflicts && d.hypothesisId == r.id && effect == ConflictEffect(d.reasonCode, Some(d.sourceEventId)))
    && |e.patternIds| == |entry.conflictPatterns| && forall k :: 0 <= k < |e.patternIds| ==> e.patternIds[k] == entry.conflictPatterns[k].id
  }

  /** The item comes from the collection for this hypothesis. */
  ghost predicate ItemTells(run: Explanation.Run, u: Setup, b: Bundle, r: Ranked, e: EvidenceEntry, item: Item) {
    var s := Subject(run.id, run.incidentId, u.digest(r.id), r.hypothesisType, r.entity);
    var accepted := Accepted(b.events);
    || EvidenceLaws.FromRequirement(u.rules, s, accepted, e, item) || EvidenceLaws.FromAssociation(u.rules, s, accepted, e, item)
    || EvidenceLaws.FromConflict(u.rules, s, accepted, e, item) || EvidenceLaws.FromAlternative(u.rules, s, accepted, e, item)
    || EvidenceLaws.FromGap(u.rules, s, accepted, e, item)
  }

  lemma TheEntry(u: Setup, t: string, entry: Entry)
    requires ValidCatalogue(u.catalogue) && EntryIs(u, t, entry)
    ensures Scoring.EntryIndex(u.catalogue.hypotheses, t) < |u.catalogue.hypotheses|
    ensures u.catalogue.hypotheses[Scoring.EntryIndex(u.catalogue.hypotheses, t)] == entry
  {
    var k :| 0 <= k < |u.catalogue.hypotheses| && u.catalogue.hypotheses[k] == entry;
  }

  lemma {:induction false} KindExactly(nodes: seq<TopologyNode>, x: Node, kind: string)
    ensures KindOfNode(nodes, x) == Some(kind) <==> OfKind(nodes, x, kind)
  {
    if nodes != [] && nodes[0].id != x {
      KindExactly(nodes[1..], x, kind);
      if k :| 0 <= k < |nodes| && nodes[k] == TopologyNode(x, kind) && forall m :: 0 <= m < k ==> nodes[m].id != x {
        assert nodes[1..][k - 1] == nodes[k] && forall m :: 0 <= m < k - 1 ==> nodes[1..][m] == nodes[m + 1];
        assert OfKind(nodes[1..], x, kind);
      }
      if k :| 0 <= k < |nodes[1..]| && nodes[1..][k] == TopologyNode(x, kind) && forall m :: 0 <= m < k ==> nodes[1..][m].id != x {
        forall m | 0 <= m < k + 1 ensures nodes[m].id != x {
          assert m > 0 ==> nodes[m] == nodes[1..][m - 1];
        }
        assert nodes[k + 1] == TopologyNode(x, kind);
      }
    } else if nodes != [] {
      assert nodes[0].id == x;
    }
  }

  lemma EntryForTells(entry: Entry, c: Computation, r: Ranked)
    ensures EntryTells(c, r, entry, EntryFor(entry, c, r))
  {
    var of := (d: ConflictDraft) => d.hypothesisId == r.id;
    var drafts := ConflictsOf(c, r);
    var effectOf := (d: ConflictDraft) => ConflictEffect(d.reasonCode, Some(d.sourceEventId));
    forall d ensures d in drafts <==> d in c.conflicts && d.hypothesisId == r.id {
      WhereMembers(c.conflicts, of, d);
    }
    if drafts != [] {
      assert drafts[0] in drafts;
      forall effect ensures effect in Mapped(drafts, effectOf) <==> exists d :: d in c.conflicts && d.hypothesisId == r.id && effect == effectOf(d) {
        MappedMembers(drafts, effectOf, effect);
      }
    } else {
      forall d | d in c.conflicts ensures d.hypothesisId != r.id {
        assert d !in drafts;
      }
    }
  }

  lemma MappedMembers<T, U>(items: seq<T>, f: T -> U, y: U)
    ensures y in Mapped(items, f) <==> exists x :: x in items && y == f(x)
  {
    if y in Mapped(items, f) {
      var i :| 0 <= i < |items| && Mapped(items, f)[i] == y;
      assert items[i] in items;
    }
    if x :| x in items && y == f(x) {
      var i :| 0 <= i < |items| && items[i] == x;
      assert Mapped(items, f)[i] == y;
    }
  }

  lemma StepsServeExactly(u: Setup, entry: Entry, t: string, kind: string)
    ensures (forall id :: id in DeclaredSteps(entry) ==> StepApplies(u, id, t, kind)) <==> StepsServe(u, entry, t, kind)
  {
    forall id ensures id in DeclaredSteps(entry) <==> id in entry.diagnosticSteps || id in entry.remediationSteps {
    }
  }

  /** A hypothesis on an entity of a known kind is published exactly when its coverage is confirmed and
      its declared steps serve that kind. */
  lemma MappedServes(run: Explanation.Run, u: Setup, b: Bundle, c: Computation, r: Ranked, entry: Entry, kind: string)
    requires ValidCatalogue(u.catalogue) && EntryIs(u, r.hypothesisType, entry) && OfKind(b.nodes, r.entity, kind)
    ensures Mappable(run, u, b, c, r) <==>
              CalculateCoverage(EntryFor(entry, c, r), EvidenceOf(run, u, b, c, r)) == r.coverage && StepsServe(u, entry, r.hypothesisType, kind)
  {
    TheEntry(u, r.hypothesisType, entry);
    KindExactly(b.nodes, r.entity, kind);
    StepsServeExactly(u, entry, r.hypothesisType, kind);
  }

  /** One that is not in the catalogue, or on an entity the topology does not know, is not. */
  lemma UnknownNotMapped(run: Explanation.Run, u: Setup, b: Bundle, c: Computation, r: Ranked)
    requires (forall entry :: !EntryIs(u, r.hypothesisType, entry)) || !NodeIn(b.nodes, r.entity)
    ensures !Mappable(run, u, b, c, r)
  {
    var i := Scoring.EntryIndex(u.catalogue.hypotheses, r.hypothesisType);
    if i < |u.catalogue.hypotheses| {
      assert EntryIs(u, r.hypothesisType, u.catalogue.hypotheses[i]);
    }
    KnownKind(b.nodes, r.entity);
  }

  lemma {:induction false} KnownKind(nodes: seq<TopologyNode>, x: Node)
    ensures KindOfNode(nodes, x).Some? ==> NodeIn(nodes, x)
  {
    if nodes != [] {
      KnownKind(nodes[1..], x);
      if k :| 0 <= k < |nodes[1..]| && nodes[1..][k].id == x {
        assert nodes[k + 1].id == x;
      }
    }
  }

  lemma RecommendationsTell(run: Explanation.Run, u: Setup, r: Ranked, entry: Entry)
    requires ValidCatalogue(u.catalogue) && EntryIs(u, r.hypothesisType, entry)
    ensures StepsTell(run, u, r, entry, RecommendationsOf(run, u, r))
  {
    TheEntry(u, r.hypothesisType, entry);
    var rows := RecommendationsOf(run, u, r);
    forall k | 0 <= k < |rows| ensures rows[k].stepId == DeclaredSteps(entry)[k] {
    }
  }

  lemma EvidenceTells(run: Explanation.Run, u: Setup, b: Bundle, c: Computation, r: Ranked, entry: Entry, item: Item)
    requires ValidCatalogue(u.catalogue) && EntryIs(u, r.hypothesisType, entry)
    ensures item in EvidenceOf(run, u, b, c, r) <==> ItemTells(run, u, b, r, EntryFor(entry, c, r), item)
  {
    TheEntry(u, r.hypothesisType, entry);
    EvidenceLaws.ItemsExactly(u.rules, SubjectOf(run, u, r), b.events, EntryFor(entry, c, r), item);
  }

  /** The row and the recommendations a hypothesis contributes. */
  lemma RowsTell(run: Explanation.Run, u: Setup, b: Bundle, c: Computation, r: Ranked, part: Part, entry: Entry)
    requires ValidCatalogue(u.catalogue) && EntryIs(u, r.hypothesisType, entry) && PartOf(run, u, b, c, r, part)
    ensures RowTells(run, u, r, part.row)
    ensures StepsTell(run, u, r, entry, part.recommendations)
  {
    RecommendationsTell(run, u, r, entry);
  }

  /** The evidence it contributes: what the collection gives for its own entry and conflicts. */
  lemma ItemsTell(run: Explanation.Run, u: Setup, b: Bundle, c: Computation, r: Ranked, part: Part, entry: Entry, item: Item)
    requires ValidCatalogue(u.catalogue) && EntryIs(u, r.hypothesisType, entry) && PartOf(run, u, b, c, r, part)
    ensures EntryTells(c, r, entry, EntryFor(entry, c, r))
    ensures item in part.evidence <==> ItemTells(run, u, b, r, EntryFor(entry, c, r), item)
  {
    EntryForTells(entry, c, r);
    EvidenceTells(run, u, b, c, r, entry, item);
  }
}
