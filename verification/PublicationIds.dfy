/** The evidence rows of one publication: when their hashed ids satisfy the primary key. */
module PublicationIds {
  import opened AnalysisEngine
  import opened CandidateGeneration
  import opened Common
  import opened Contracts
  import opened Evidence
  import opened EvidenceIds
  import opened EvidenceSeparation
  import opened RcaAdapter
  import opened RcaContracts
  import opened Scoring
  import opened Sorting
  import opened TypedGraph
  import Explanation

  function EvidenceIn(run: Explanation.Run, u: Setup, b: Bundle, c: Computation): nat -> seq<Item> {
    (i: nat) => if i < |c.ranked| then EvidenceOf(run, u, b, c, c.ranked[i]) else []
  }

  /** The evidence of different hypotheses of a publication has different ids. */
  lemma PartsApart(run: Explanation.Run, u: Setup, b: Bundle, c: Computation, r: Ranked, q: Ranked, x: Item, y: Item)
    requires Identifies(u.rules) && Injective(u.digest) && r.id != q.id
    requires x in EvidenceOf(run, u, b, c, r) && y in EvidenceOf(run, u, b, c, q)
    ensures x.id != y.id
  {
    var i, j := EntryIndex(u.catalogue.hypotheses, r.hypothesisType), EntryIndex(u.catalogue.hypotheses, q.hypothesisType);
    CollectedMade(u.rules, SubjectOf(run, u, r), Accepted(b.events), EntryFor(u.catalogue.hypotheses[i], c, r), x);
    CollectedMade(u.rules, SubjectOf(run, u, q), Accepted(b.events), EntryFor(u.catalogue.hypotheses[j], c, q), y);
  }

  /** No two items of the hypothesis's evidence clash. */
  ghost predicate Unclashing(run: Explanation.Run, u: Setup, b: Bundle, c: Computation, r: Ranked) {
    var i := EntryIndex(u.catalogue.hypotheses, r.hypothesisType);
    i < |u.catalogue.hypotheses| ==>
      NoClash(u.rules, SubjectOf(run, u, r), Accepted(b.events), EntryFor(u.catalogue.hypotheses[i], c, r))
  }

  lemma EvidenceDistinctExactly(run: Explanation.Run, u: Setup, b: Bundle, c: Computation, r: Ranked)
    requires Identifies(u.rules)
    ensures UniqueIds(EvidenceOf(run, u, b, c, r)) <==> Unclashing(run, u, b, c, r)
  {
    var i := EntryIndex(u.catalogue.hypotheses, r.hypothesisType);
    if i < |u.catalogue.hypotheses| {
      IdsDistinctExactly(u.rules, SubjectOf(run, u, r), Accepted(b.events), EntryFor(u.catalogue.hypotheses[i], c, r));
    }
  }

  /** The parts' evidence, part by part. */
  lemma {:induction false} JoinedIsAll(run: Explanation.Run, u: Setup, b: Bundle, c: Computation, parts: seq<Part>)
    requires |parts| <= |c.ranked| && Pairwise(PartIn(run, u, b, c), c.ranked, parts)
    ensures AllEvidence(parts) == Joined(EvidenceIn(run, u, b, c), |parts|)
  {
    if parts != [] {
      var n := |parts| - 1;
      JoinedIsAll(run, u, b, c, parts[..n]);
      assert PartIn(run, u, b, c)(c.ranked[n], parts[n]);
    }
  }

  /** The evidence rows of a publication have distinct ids exactly when no hypothesis's evidence clashes. */
  lemma PublishedIdsDistinctExactly(run: Explanation.Run, u: Setup, b: Bundle, c: Computation, parts: seq<Part>)
    requires Identifies(u.rules) && Injective(u.digest) && Distinct(RankedIds(c.ranked))
    requires |parts| == |c.ranked| && Pairwise(PartIn(run, u, b, c), c.ranked, parts)
    ensures Distinct(IdsOf(AllEvidence(parts))) <==> forall i :: 0 <= i < |c.ranked| ==> Unclashing(run, u, b, c, c.ranked[i])
  {
    JoinedIsAll(run, u, b, c, parts);
    UniqueMeansDistinct(AllEvidence(parts));
    AllApart(run, u, b, c);
    JoinedDistinctExactly(EvidenceIn(run, u, b, c), |parts|);
    EachDistinctExactly(run, u, b, c);
  }

  lemma EachDistinctExactly(run: Explanation.Run, u: Setup, b: Bundle, c: Computation)
    requires Identifies(u.rules)
    ensures (forall i :: 0 <= i < |c.ranked| ==> UniqueAt(EvidenceIn(run, u, b, c), i))
            <==> forall i :: 0 <= i < |c.ranked| ==> Unclashing(run, u, b, c, c.ranked[i])
  {
    forall i | 0 <= i < |c.ranked| ensures UniqueAt(EvidenceIn(run, u, b, c), i) <==> Unclashing(run, u, b, c, c.ranked[i]) {
      EvidenceDistinctExactly(run, u, b, c, c.ranked[i]);
    }
  }

  lemma AllApart(run: Explanation.Run, u: Setup, b: Bundle, c: Computation)
    requires Identifies(u.rules) && Injective(u.digest) && Distinct(RankedIds(c.ranked))
    ensures ListsApart(EvidenceIn(run, u, b, c), |c.ranked|)
  {
    var evidence := EvidenceIn(run, u, b, c);
    forall i, j, x, y | 0 <= i < j < |c.ranked| && x in evidence(i) && y in evidence(j) ensures x.id != y.id {
      assert RankedIds(c.ranked)[i] != RankedIds(c.ranked)[j];
      PartsApart(run, u, b, c, c.ranked[i], c.ranked[j], x, y);
    }
  }

  // ---------------------------------------------------------------- catalogues whose ids never collide

  /** The entry's requirements have different reason codes, met and missing, and its conflict patterns
      different ids. */
  ghost predicate Apart(rules: Rules, entry: Entry) {
    && (forall i, j :: 0 <= i < j < |entry.expectedEvidence| ==> CodesDiffer(rules, entry.expectedEvidence[i].0, entry.expectedEvidence[j].0))
    && (forall i, j :: 0 <= i < j < |entry.conflictPatterns| ==> entry.conflictPatterns[i].id != entry.conflictPatterns[j].id)
  }

  predicate CodesDiffer(rules: Rules, one: string, other: string) {
    rules.observedCode(one) != rules.observedCode(other) && rules.missingCode(one) != rules.missingCode(other)
  }

  lemma ExpectedApart(rules: Rules, entry: Entry, x: Node)
    requires Apart(rules, entry)
    ensures RequirementsSeparate(rules, x, ExpectedEvidence(entry.expectedEvidence)) && MissingSeparate(rules, ExpectedEvidence(entry.expectedEvidence))
  {
    var expected := ExpectedEvidence(entry.expectedEvidence);
    forall i, j | 0 <= i < j < |expected| ensures CodesDiffer(rules, expected[i].0, expected[j].0) {
      ExpectedKeys(entry.expectedEvidence, expected[i].0);
      ExpectedKeys(entry.expectedEvidence, expected[j].0);
      KeysApart(rules, entry, expected[i].0, expected[j].0);
    }
  }

  lemma KeysApart(rules: Rules, entry: Entry, one: string, other: string)
    requires Apart(rules, entry) && one != other && HasKey(entry.expectedEvidence, one) && HasKey(entry.expectedEvidence, other)
    ensures CodesDiffer(rules, one, other)
  {
    var i :| 0 <= i < |entry.expectedEvidence| && entry.expectedEvidence[i].0 == one;
    var j :| 0 <= j < |entry.expectedEvidence| && entry.expectedEvidence[j].0 == other;
    if i < j {
      assert CodesDiffer(rules, entry.expectedEvidence[i].0, entry.expectedEvidence[j].0);
    } else {
      assert CodesDiffer(rules, entry.expectedEvidence[j].0, entry.expectedEvidence[i].0);
    }
  }

  ghost predicate PatternsDiffer(patterns: seq<ConflictPattern>) {
    forall i, j :: 0 <= i < j < |patterns| ==> patterns[i].id != patterns[j].id
  }

  ghost predicate AppliedDiffer(conflicts: seq<AppliedConflict>) {
    forall i, j :: 0 <= i < j < |conflicts| ==> conflicts[i].pattern.id != conflicts[j].pattern.id
  }

  lemma {:induction false} MatchedDiffer(patterns: seq<ConflictPattern>, b: Bundle)
    requires PatternsDiffer(patterns)
    ensures AppliedDiffer(Matched(patterns, b))
  {
    if patterns != [] {
      MatchedDiffer(patterns[1..], b);
      var rest := Matched(patterns[1..], b);
      forall j | 0 <= j < |rest| ensures rest[j].pattern.id != patterns[0].id {
        MatchedFromCatalogue(patterns[1..], b, rest[j]);
        var k :| 0 <= k < |patterns[1..]| && patterns[1..][k] == rest[j].pattern;
        assert patterns[k + 1] == rest[j].pattern;
      }
    }
  }

  /** The drafts of one hypothesis are its own conflicts, in order. */
  lemma {:induction false} DraftsOf(scored: seq<CandidateScore>, n: nat, i: nat)
    requires n <= |scored| && i < |scored|
    ensures Where(DraftsUpTo(scored, n), (d: ConflictDraft) => d.hypothesisId == HypothesisLabel(i + 1))
            == if i < n then Mapped(scored[i].conflicts, (k: AppliedConflict) => Draft(k, i)) else []
  {
    if n > 0 {
      var mine := (d: ConflictDraft) => d.hypothesisId == HypothesisLabel(i + 1);
      var last := Mapped(scored[n - 1].conflicts, (k: AppliedConflict) => Draft(k, n - 1));
      DraftsOf(scored, n - 1, i);
      WhereConcat(DraftsUpTo(scored, n - 1), last, mine);
      if i == n - 1 {
        WhereAll(last, mine);
      } else {
        LabelsDiffer(i + 1, n);
        WhereNone(last, mine);
      }
    }
  }

  /** The conflict effects a hypothesis's evidence is collected with have different codes. */
  lemma EffectsApart(rules: Rules, entry: Entry, c: Computation, r: Ranked, conflicts: seq<AppliedConflict>, i: nat)
    requires Apart(rules, entry) && AppliedDiffer(conflicts)
    requires ConflictsOf(c, r) == Mapped(conflicts, (k: AppliedConflict) => Draft(k, i))
    ensures EffectsSeparate(rules, EffectsOf(EntryFor(entry, c, r)))
  {
    var effects := EffectsOf(EntryFor(entry, c, r));
    forall m, n | 0 <= m < n < |effects| ensures effects[m].code != effects[n].code {
      if conflicts != [] {
        assert effects[m].code == conflicts[m].pattern.id && effects[n].code == conflicts[n].pattern.id;
      } else {
        assert effects[m].code == entry.conflictPatterns[m].id && effects[n].code == entry.conflictPatterns[n].id;
      }
    }
  }

  /** What a ranked hypothesis was scored with. */
  lemma RankedMatched(c: Catalogue, b: Bundle, available: Availability, scored: seq<CandidateScore>, i: nat)
    requires ValidCatalogue(c) && AllScored(c, b, Candidates(c, b), available, scored) && i < |SortBy(scored, Merit(c))|
    ensures var s := SortBy(scored, Merit(c))[i];
            var e := EntryIndex(c.hypotheses, s.candidate.hypothesisType);
            e < |c.hypotheses| && s.conflicts == Matched(c.hypotheses[e].conflictPatterns, b)
  {
    var s := SortBy(scored, Merit(c))[i];
    SortKeepsMembers(scored, Merit(c), s);
    var k :| 0 <= k < |scored| && scored[k] == s;
    assert ScoredIn(c, b, available)(Candidates(c, b)[k], scored[k]);
  }

  /** What the `i`-th ranked hypothesis says of its score. */
  ghost predicate ScoredAs(c: Catalogue, b: Bundle, r: Computation, i: nat, s: CandidateScore)
    requires i < |r.ranked|
  {
    var e := EntryIndex(c.hypotheses, r.ranked[i].hypothesisType);
    && e < |c.hypotheses| && s.conflicts == Matched(c.hypotheses[e].conflictPatterns, b)
    && ConflictsOf(r, r.ranked[i]) == Mapped(s.conflicts, (k: AppliedConflict) => Draft(k, i))
  }

  /** Labelled by its place, with the conflicts its entry's patterns matched. */
  ghost predicate Labelled(c: Catalogue, b: Bundle, r: Computation, i: nat)
    requires i < |r.ranked|
  {
    r.ranked[i].id == HypothesisLabel(i + 1) && exists s :: ScoredAs(c, b, r, i, s)
  }

  ghost predicate AllLabelled(c: Catalogue, b: Bundle, r: Computation) {
    Distinct(RankedIds(r.ranked)) && forall i :: 0 <= i < |r.ranked| ==> Labelled(c, b, r, i)
  }

  lemma RankedScored(c: Catalogue, b: Bundle, scored: seq<CandidateScore>, r: Computation, i: nat, available: Availability)
    requires ValidCatalogue(c) && AllScored(c, b, Candidates(c, b), available, scored) && i < |scored|
    requires r.ranked == RankedFrom(c, SortBy(scored, Merit(c)))
    requires r.conflicts == DraftsUpTo(SortBy(scored, Merit(c)), |SortBy(scored, Merit(c))|)
    ensures i < |r.ranked| && Labelled(c, b, r, i)
  {
    var ordered := SortBy(scored, Merit(c));
    assert |multiset(ordered)| == |multiset(scored)|;
    RankedMatched(c, b, available, scored, i);
    DraftsOf(ordered, |ordered|, i);
    assert ScoredAs(c, b, r, i, ordered[i]);
  }

  lemma ExplainedIsLabelled(c: Catalogue, b: Bundle, available: Availability, scored: seq<CandidateScore>, r: Computation)
    requires ValidCatalogue(c) && Explains(c, b, available, scored, r)
    ensures AllLabelled(c, b, r)
  {
    var ordered := SortBy(scored, Merit(c));
    assert |multiset(ordered)| == |multiset(scored)|;
    RankedLabels(c, ordered);
    forall i | 0 <= i < |r.ranked| ensures Labelled(c, b, r, i) {
      RankedScored(c, b, scored, r, i, available);
    }
  }

  lemma ApartNeverClashes(run: Explanation.Run, u: Setup, b: Bundle, c: Computation, i: nat)
    requires IdsIdentify(b.events) && i < |c.ranked| && Labelled(u.catalogue, b, c, i)
    requires forall e :: e in u.catalogue.hypotheses ==> Apart(u.rules, e)
    ensures Unclashing(run, u, b, c, c.ranked[i])
  {
    var r := c.ranked[i];
    var s :| ScoredAs(u.catalogue, b, c, i, s);
    var entry := u.catalogue.hypotheses[EntryIndex(u.catalogue.hypotheses, r.hypothesisType)];
    assert entry in u.catalogue.hypotheses;
    MatchedDiffer(entry.conflictPatterns, b);
    ExpectedApart(u.rules, entry, r.entity);
    EffectsApart(u.rules, entry, c, r, s.conflicts, i);
    AcceptedDiffer(b.events);
    SeparateNeverClashes(u.rules, SubjectOf(run, u, r), Accepted(b.events), EntryFor(entry, c, r));
  }

  lemma AcceptedDiffer(events: seq<CanonicalEvent>)
    requires IdsIdentify(events)
    ensures IdsDiffer(Accepted(events))
  {
    ByIdMembers(events);
    var kept, sorted := ById(events), Accepted(events);
    SortKeepsDistinct(kept, EarlierEvent);
    forall i, j | 0 <= i < j < |sorted| ensures sorted[i].id != sorted[j].id {
      SortKeepsMembers(kept, EarlierEvent, sorted[i]);
      SortKeepsMembers(kept, EarlierEvent, sorted[j]);
      if sorted[i].id == sorted[j].id {
        OneOfEachId(kept, sorted[i], sorted[j]);
      }
    }
  }

  /** With such entries the evidence rows of every publication have distinct ids. */
  lemma ApartIdsDistinct(run: Explanation.Run, u: Setup, b: Bundle, c: Computation, parts: seq<Part>)
    requires Identifies(u.rules) && Injective(u.digest) && IdsIdentify(b.events) && AllLabelled(u.catalogue, b, c)
    requires |parts| == |c.ranked| && Pairwise(PartIn(run, u, b, c), c.ranked, parts)
    requires forall e :: e in u.catalogue.hypotheses ==> Apart(u.rules, e)
    ensures Distinct(IdsOf(AllEvidence(parts)))
  {
    forall i | 0 <= i < |c.ranked| ensures Unclashing(run, u, b, c, c.ranked[i]) {
      assert Labelled(u.catalogue, b, c, i);
      ApartNeverClashes(run, u, b, c, i);
    }
    PublishedIdsDistinctExactly(run, u, b, c, parts);
  }
}
