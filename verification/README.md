# Incident analysis pipeline: model and proofs

The backend turns operational events into incidents and incidents into published root-cause
analyses: events are ingested and deduplicated, detectors compare them with learned baselines,
anomalies are attached to incidents, a deterministic engine explains each incident over a typed
topology, and the explanation is published as an immutable run that people read and review while
later runs replace it. This project models that pipeline from ingestion to review and proves what it
is for: that the fast loops compute what their simple definitions say, that every interleaving and
every failure leaves the tables consistent, and that what one stage produces the next one accepts.

Imperative code is modelled as methods and classes over the same fields, each proved against a
specification function or predicate; pure code as functions with lemmas. What those functions mean is
proved separately, in the modules whose names end in `Laws` and in the methods' own contracts: these laws
are about events, tables and settings, so that a wrong specification function does not satisfy them.

| part | modules |
|---|---|
| typed graph search | `TypedGraph` (walks, distance, the declared answers), `TopologySearch` (the four hand-written searches), `TopologyGraph` (loading, relation subgraph, the library-backed neighbour query) |
| detection | `Ewma`, `EwmaDetector`, `EwmaStore`, `DetectionService` |
| incidents | `Attachment` (the attachment score), `Incidents` (the manager), `IncidentLaws`, `IncidentLife` (manager, publications and reviews together) |
| ingestion | `Ingestion`, `IngestionLaws`, `Resubmission` |
| analysis | `RcaContracts` (the validators), `CandidateGeneration`, `GenerationLaws`, `Ranking`, `Scoring`, `FactorLaws`, `AnalysisEngine`, `EngineLaws`, `Determinism` |
| publication | `Evidence`, `EvidenceLaws`, `EvidenceIds`, `EvidenceSeparation`, `PublicationIds`, `RecommendationIds`, `Wording`, `Explanation`, `ExplanationLaws`, `RcaAdapter`, `AdapterLaws`, `AnalysisDatabase`, `Publication`, `PublicationRuns`, `Revisions`, `EndToEnd` |
| reading and review | `Readers`, `Reviews`, `ReviewLaws`, `AuditPaging`, `AuditGrowth`, `Base64Url` |
| shared | `Common`, `Sorting`, `Contracts` |

## What the model assumes

- Floats are exact reals, scores of the attachment rule whole hundredths, timestamps whole
  microseconds. A square root is any function `root` with `root(v) >= 0` and `root(v)^2 == v`.
- SHA-256 is injective: a fingerprint is represented by what is hashed. With fixed catalogues and
  immutable events the analysis fingerprint is the set of attached event ids, and hashed row ids are
  an injective function of their inputs.
- A savepoint rollback restores the database exactly, and each call under the global lock is atomic
  except where a failure is injected at one of its sub-steps.
- The library search behind `get_neighbors` returns, as documented, every node within the cutoff with
  its distance.
- The publisher reads the process-wide topology and hypothesis catalogue; they are taken to be the ones
  the bundle was built from and the engine was given.
- A requirement's matcher, the symptom catalogue and the playbook lookup are arbitrary functions; the
  text provider and the order and number of failures are arbitrary too.

## Properties that fail as stated, with their exact conditions

- The bundle validator does not reject repeated typed edges, the publisher rejects repeated edge
  states. Publication is accepted iff the topology repeats no traffic edge of the suspected root's
  three-hop blast radius (`RcaAdapter.EngineOutputIsPublishable`). A bundle that fails is
  `EndToEnd.RepeatedEdge` (`EndToEnd.RepeatedEdgeIsRefused`). Such a bundle cannot come from
  `build_incident_analysis_bundle` (`backend/app/orchestration/analysis_bundle.py:159-245`) with the
  loaded topology: the loader refuses repeated typed edges (`TopologyGraph.LoadedTopologyIsAccepted`).
- A review request answered with another client action's review leaves no record of its own. Its
  replay gives the same review iff the incident is still open on that run and, for an evidence
  request, the hypothesis undecided (`Reviews.SharedAnswerReplaysExactly`, with the concrete refusal
  `Reviews.SharedAnswerLost`).
- If a submission's checks and its insertion see different states, a hypothesis keeps a single
  terminal decision iff the guard of `Reviews.LateWriteKeepsOneTerminalExactly` holds at the write
  (two decisions on a concrete state: `Reviews.LateWriteDoubles`).
- Recomputing a closed incident whose attached events changed reopens it and leaves the confirmed
  hypothesis of an earlier run on record (`Reviews.RecomputeReopens`).
- Truncation toward zero makes deduplication bucket 0 wider than the others: any two timestamps of a
  bucket span less than one bucket iff the bucket is not 0 (`Ingestion.SpanBelowBucketExactly`). A
  deduplication group spans less than a bucket unless it is of bucket 0 and began before 1970
  (`Ingestion.GroupSpan`; one that does span more is `Ingestion.WideGroup`). The event ids of
  `backend/app/ingestion/adapters/common.py` refuse timestamps before 1970, so only the `gaia.run`
  source, which takes its ids from its records, can send such a group (`Resubmission.IngestedWide`).
- Submitting a record again is not always idle. The second submission changes nothing iff the record is
  well formed and either already stored under its source record id, or not collapsible, or finds no group and
  carries a source record id or a taken event id (`Resubmission.TwiceIdleExactly`). A record that was
  collapsed is counted again (`Resubmission.CollapsedAgain`; three counted for two alerts:
  `Resubmission.CountedTwice`).
- An incident attaches its own opening event iff the attachment threshold is within
  50 + 40 (trace) + 20 (known family) hundredths, capped at 100
  (`Attachment.OpeningAttachesExactly`); at 0.90 an event with neither is missed
  (`Attachment.OpeningMissed`).
- Published revisions are at most the attached events, in every history, iff the registered engine has
  no acceptable output for an incident with no attached event (`Revisions.RevisionsBoundedExactly`).
  Without an engine the bound fails: one revision, no event (`Revisions.WithoutEngineExceeds`). The
  program registers the analysis engine (`backend/app/main.py:57`) and every entry of
  `backend/app/fixtures/hypotheses.yaml` needs a signal, so for it the bound holds unconditionally
  (`EndToEnd.RegisteredRevisionsBounded`).
- Evidence ids hash the reason code and the source event, so two requirements of one hypothesis met by
  the same event under the same reason code collide: `EvidenceSeparation.TimeoutsCollide` for an entry
  with `timeout_log` and `dependency_timeout`. For given events ids are distinct iff no such pair exists
  (`EvidenceIds.IdsDistinctExactly`, `PublicationIds.PublishedIdsDistinctExactly`); for all events iff
  the entry's requirements and conflict effects are separate (`EvidenceSeparation.SeparatesExactly`).
  Different codes suffice for every publication (`PublicationIds.ApartIdsDistinct`), and every entry of
  `backend/app/fixtures/hypotheses.yaml` has them, with at most one conflict pattern each.
- Recommendation ids hash the hypothesis and the step: they are distinct iff no ranked hypothesis's entry
  declares a step twice (`RecommendationIds.StepIdsDistinctExactly`), and no entry of that file does.
- A baseline put into a store that was never loaded is lost to reads iff the table already has a row for
  its key (`EwmaStore.Store.Put`; lost for good by the next flush: `EwmaStore.PutLost`). The service reads
  first, so its store is loaded.
- An audit walk over a log that grows between its pages misses exactly those new records that are not
  older than the last one shown when they enter (`AuditGrowth.ShownExactly`; such a walk is
  `AuditGrowth.RecordMissed`).
- The 0.80 cap on anomaly scores needs a positive updated variance; without one there is no z-score
  and a static finding can score 1.0 (`EwmaDetector.ConstantBaselineScoresFull`).
- The catalogue validator does not check the factor a conflict pattern names; the ranker raises, iff
  such a pattern matches (`Scoring.ScoreCandidate`; one that does: `Scoring.ForeignFactorRefused`). With
  patterns that name rubric factors only, the engine raises iff no candidate is generated
  (`Determinism.AnalyseSupported`).
- The symptom factor is full iff every required symptom was seen, and zero iff none was, for entries with
  fewer than 20,000 symptoms (`FactorLaws.SymptomEnds`); with more, the ratio's four places round a nearly
  full share up and a nearly empty one down (`FactorLaws.ShareEnds` has the exact bounds).
- Of the four checks of a change's causal fit the one that the changed entity lies on the candidate's path
  can never fail, so a candidate with a change has at least 0.25 (`FactorLaws.ChangeObeysLaw`).
- `_expected_evidence` is documented to keep the first template of a repeated requirement; the code
  keeps the last (`Evidence.LastTemplateKept`). The requirement codes, and so the coverage, are the same
  either way (`Evidence.ExpectedKeys`).

## Model

| member | source | states |
|---|---|---|
| TypedGraph.WalkFlips | backend/app/topology/graph.py:159-165 | A walk read backwards is a walk of the opposite direction over the same edges: reverse traversal is the exact mirror of forward traversal. |
| TypedGraph.ReverseIsDual | backend/app/topology/graph.py:143-165 | t is within k hops of s in one direction iff s is within k hops of t in the other, for every relation, graph and k. |
| TypedGraph.OneHop | backend/app/rca/ranker.py:131-142 | One hop forward is an edge of the relation from source to target, one in reverse an edge from target to source. |
| TypedGraph.BlastRadiusIsDual | backend/app/topology/graph.py:143-149 | Whatever list meets the neighbour contract for a dependency blast radius, x is in it iff x is not the root and the root is within the same number of forward `depends_on` hops of x. |
| TypedGraph.ShortestIsDistance | backend/app/rca/ranker.py:87-109 | The hop count of a walk no other walk undercuts is the distance between its ends. |
| TypedGraph.PathIsDetermined | backend/app/rca/ranker.py:87-109 | Two path answers for the same graph, policy and ends are the same path. |
| TypedGraph.EarlierIsTotal | backend/app/rca/ranker.py:87-109 | Two walks of one length from one start are the same, or one of them takes the earlier edge where they first part. |
| TypedGraph.PathAndDistanceAgree | backend/app/detection/topology_view.py:38-58 | Any correct path answer and any correct distance answer for the same policy agree on existence, and then the path has distance + 1 nodes; both exist iff the target is within the bound. |
| TypedGraph.ReachableMeansNeighbors | backend/app/rca/ranker.py:111-129 | Dropping the source from a correct `reachable` answer gives a correct neighbour answer: the ranker and the topology graph list the same nodes. |
| TypedGraph.BoundIrrelevant | backend/app/topology/graph.py:88-112 | Reachability within k depends on relation and direction only, not on the policy's own bound. |
| TopologySearch.Adjacency | backend/app/rca/ranker.py:131-142 | The adjacency dictionary lists, for every node, exactly the other ends of the edges of the policy's relation in its direction, in edge order. |
| TopologySearch.TypedPathExists | backend/app/rca/candidate_generator.py:130-160 | True iff a walk of at most `max_hops` typed, directed edges joins source and target; terminates on every graph, cycles included. |
| TopologySearch.Reachable | backend/app/rca/ranker.py:111-129 | Lists without repetition and in non-decreasing distance exactly the nodes within `max_hops`, source first. |
| TopologySearch.Path | backend/app/rca/ranker.py:87-109 | Returns, among the shortest typed walks from source to target, the one that at its first parting from any other takes the earlier edge, and None exactly when no walk has at most `max_hops` edges. |
| TopologySearch.Settled | backend/app/rca/ranker.py:96-109 | The breadth-first invariant's heart: once the queue's head is at depth d, every node some walk reaches in at most d hops has been found at no greater depth. |
| TopologySearch.PopAndExpand | backend/app/rca/ranker.py:96-109 | Popping a node and queueing its unseen neighbours keeps found distances sound, done nodes closed and the queue layered, for any graph. |
| TopologySearch.Exhausted | backend/app/rca/ranker.py:111-129 | An empty queue means the found nodes are exactly those within the bound, each at its true distance. |
| TopologySearch.FirstSight | backend/app/rca/ranker.py:101-107 | A target first seen from a node at depth d is reached by a walk no other walk undercuts, so returning at first sight is safe. |
| TopologySearch.FirstAtFront | backend/app/rca/ranker.py:96-109 | A node first sighted from the queue's head is reached by extending the head's walk, and no other walk of that length to it takes the earlier edge where they part. |
| TopologySearch.UnseenInEdgeOrder | backend/app/rca/ranker.py:101-107 | A node's unseen neighbours are queued in the order of the first edges to them. |
| TopologySearch.TopologyView.constructor | backend/app/detection/topology_view.py:32-36 | The view's adjacency agrees with the loaded edges for every relation. |
| TopologySearch.TopologyView.Distance | backend/app/detection/topology_view.py:38-58 | The two-hop search returns the exact distance, and None exactly when the target is farther than two hops. |
| TopologyGraph.LoadNodes | backend/app/topology/graph.py:228-243 | Accepts iff there is a node, every record has the required fields and a non-empty id, and ids are distinct; otherwise reports the first record's fault, and the nodes are the records, in order. |
| TopologyGraph.LoadEdges | backend/app/topology/graph.py:245-272 | Accepts iff every record has the required fields, names two different known ends and a known relation and repeats no earlier (source, relation, target); otherwise reports the first record's fault; the accepted edges are the records, in order. |
| TopologyGraph.LoadedTopologyIsAccepted | backend/app/topology/graph.py:228-272 | What the loader accepts passes the bundle's edge validator and repeats no traffic edge anywhere, which is the condition under which publication succeeds. |
| TopologyGraph.RelationGraph | backend/app/topology/graph.py:274-284 | The relation subgraph, reversed or not, has exactly the policy's hops as arcs. |
| TopologyGraph.GetNeighbors | backend/app/topology/graph.py:88-112 | From the library's distances: every node within the bound except the source, once, ordered by distance and then by place in the fixture. |
| TopologyGraph.SortedNeighbors | backend/app/topology/graph.py:100-112 | Sorting the (distance, position) items of a distance table gives a correct neighbour answer, with ties in fixture order. |
| Ewma.WeightsSumToOne | backend/app/detection/ewma_detector.py:110-120 | The exponential weights of any non-empty history sum to one. |
| Ewma.BaselineIsWeighted | backend/app/detection/ewma_detector.py:110-135 | After any history the recurrence holds exactly the exponentially weighted mean, the weighted variance about that mean, and the number of observations. |
| Ewma.BaselineBounds | backend/app/detection/ewma_detector.py:110-135 | If every observation lies in [lo, hi], so does the mean, and 0 <= variance <= (hi - mean)(mean - lo). |
| Ewma.BoundedVariance | backend/app/detection/ewma_detector.py:120-135 | That bound gives variance at most a quarter of the squared range, sharper than the squared range itself. |
| Ewma.UpdateKeepsBounds | backend/app/detection/ewma_detector.py:118-124 | One update with an observation in the range keeps the bounds. |
| Ewma.Steiner | backend/app/detection/ewma_detector.py:118-124 | The weighted spread about any point is the spread about the mean plus the squared distance of the mean: why the recurrence may use the old mean. |
| Ewma.RecurrenceIdentity | backend/app/detection/ewma_detector.py:118-124 | `(1-a)(var + a delta^2)` equals the spread re-centred on the new mean. |
| EwmaDetector.Evaluate | backend/app/detection/ewma_detector.py:92-193 | Ignored events change nothing; a considered event overwrites exactly its key's state and pending update with the observed recurrence. It is reported iff its baseline had four samples, it is at the safety threshold or (for a signal that may) far enough from the mean for the widened variance, and its weight rounds to the anomaly threshold; score, z-score and rule are those. |
| EwmaDetector.ZScoreBounded | backend/app/detection/ewma_detector.py:128-145 | z squared never exceeds 100/9, for every previous state with non-negative variance and every observation. |
| EwmaDetector.ZRuleExact | backend/app/detection/ewma_detector.py:140-159 | At threshold 3 the z rule fires iff the updated variance is positive and 19 delta^2 >= 810 times the previous variance, for signals that are not static-only. |
| EwmaDetector.JudgeReports | backend/app/detection/ewma_detector.py:140-161 | For all settings: reported iff four earlier samples, and the safety threshold reached or the gap at least the z threshold times the root of the widened variance (not for static-only signals), and 0.6 times the spread plus 0.4 times the level, in hundredths, at least the anomaly threshold. |
| EwmaDetector.DefaultReportsExactly | backend/app/detection/ewma_detector.py:140-161 | At the default settings without roots: the second case is a positive updated variance with 19 gap^2 >= 810 times the previous variance, the third a weight of 0.745, and a report names the z rule iff the second case holds. |
| EwmaDetector.DriftIsReported | backend/app/detection/ewma_detector.py:92-193 | Four samples of 0.90 and then 0.95 under a safety threshold of 1.0: reported with z 10/3 and score 0.78. |
| EwmaDetector.ScoreCapped | backend/app/detection/ewma_detector.py:68-76 | A finding with positive updated variance scores at most 0.80. |
| EwmaDetector.VarianceVanishesExactly | backend/app/detection/ewma_detector.py:118-128 | The updated variance is positive iff the previous one was or the observation differs from the mean: exactly when a z-score exists. |
| EwmaDetector.ConstantBaselineScoresFull | backend/app/detection/ewma_detector.py:68-76 | The exception to the 0.80 cap: a constant history at or above the safety threshold has no z-score and scores 1.0. |
| EwmaDetector.AnomaliesNearSafety | backend/app/detection/ewma_detector.py:140-159 | At the default 0.75 every anomaly has an observation of at least 0.8625 of the safety threshold and at least five samples. |
| EwmaStore.Store.PrepareBind | backend/app/detection/ewma_store.py:132-143 | Rebinding succeeds iff the store is bound to that database already or has nothing dirty; it empties the cache and never changes what reads see. |
| EwmaStore.Store.Get | backend/app/detection/ewma_store.py:55-62 | Returns the latest put, or else the table's row; marks nothing dirty and changes no other visible value. |
| EwmaStore.Store.Put | backend/app/detection/ewma_store.py:64-70 | Exactly that key's visible value changes and becomes dirty, except that on a store that is not loaded a key with a row keeps reading as the row. |
| EwmaStore.PutLost | backend/app/detection/ewma_store.py:55-118 | A baseline put into a new store over a table with a row for its key: the next read is the row, and the flush after it writes the row back. |
| EwmaStore.Store.Flush | backend/app/detection/ewma_store.py:72-118 | Writes exactly the dirty entries; afterwards table and reads agree and nothing is dirty, and on a loaded store the table is what reads saw before; the count is the number of dirty keys; a refused flush changes nothing. |
| EwmaStore.Store.Reset | backend/app/detection/ewma_store.py:120-126 | Leaves the store as newly constructed. |
| DetectionService.BuildContext | backend/app/detection/service.py:60-131 | The context holds for the event's key exactly the visible state and no updates; building it changes nothing visible. |
| DetectionService.FlushUpdates | backend/app/detection/service.py:192-196 | Exactly the pending update, if any, becomes visible. |
| DetectionService.ProcessEvent | backend/app/detection/service.py:235-245 | One event changes the visible table and the findings exactly as the reference fold does. |
| DetectionService.AbsorbReports | backend/app/detection/service.py:235-245 | The reference fold itself: it ignores what is no metric sample of a signal with a threshold, starts a row on a signal's first sample, and adds exactly the finding the row's baseline reports. |
| DetectionService.PublishBatch | backend/app/detection/service.py:227-233 | A batch leaves the table equal to the fold over its events in (timestamp, id) order, with nothing dirty, and returns the fold's findings. |
| DetectionService.Replay | backend/app/detection/ewma_store.py:72-160 | Restart transparency: with a new store before any of the batches, in any pattern, the final table and all findings equal those of the fold with no restart at all. |
| DetectionService.RowsAreBaselines | backend/app/detection/service.py:90-99 | After any events the row of a key is the recurrence over that key's own samples, whatever other keys were interleaved. |
| DetectionService.RowsAreWeighted | backend/app/detection/service.py:90-99 | So every stored row is the exact weighted mean, variance and count of its key's history. |
| Ranking.WeightsSumToOne | backend/app/rca/ranker.py:25-34 | The rubric's weights are positive and sum to exactly one. |
| Ranking.RoundingIsTight | backend/app/rca/ranker.py:63-65 | Half-up rounding to one place moves a number by at most 0.05, downward by strictly less. |
| Ranking.ScoreInRange | backend/app/rca/ranker.py:68-77 | With factors in [0, 1] the score is in [0, 100] and within 0.05 of 100 times the weighted sum. |
| Ranking.ScoreMonotone | backend/app/rca/ranker.py:68-77 | The rounded score is monotone in every factor. |
| Ranking.ScoreInPoints | backend/app/rca/ranker.py:25-77 | The score is the rounded sum of the factors at 25, 20, 15, 15, 10, 10, 3 and 2 points. |
| Ranking.PointsAlone | backend/app/rca/ranker.py:25-77 | What each factor alone scores when it is full. |
| Ranking.SupportedMeansWeighted | backend/app/rca/ranker.py:25-34 | The factors effects may name are exactly the rubric's. |
| Ranking.EffectsOnlyLower | backend/app/rca/ranker.py:583-604 | Any sequence of cap and subtract effects that succeeds keeps factors in [0, 1], raises none and adds none. |
| Ranking.LastEffect | backend/app/rca/ranker.py:583-604 | One more effect: a cap leaves the smaller of value and cap, a subtraction the difference or zero, and no other factor moves. |
| Ranking.EffectMonotone | backend/app/rca/ranker.py:583-604 | Applying an effect preserves the order between factor tables. |
| Ranking.MoreEffectsLower | backend/app/rca/ranker.py:583-604 | A superset of effects, in the same order, never leaves any factor higher, although caps and subtractions do not commute. |
| Ranking.ApplyConflicts | backend/app/rca/ranker.py:583-604 | The mutating loop computes the specification fold, failing where it fails. |
| RcaContracts.PaddedReads | backend/app/rca/analysis_engine.py:47-62 | A zero-padded ordinal reads back as the number it was made from, whatever its width. |
| RcaContracts.LabelsDiffer | backend/app/rca/candidate_generator.py:196-206 | So candidate and hypothesis labels of different positions differ, past three digits too. |
| CandidateGeneration.KindOf | backend/app/rca/candidate_generator.py:172-186 | Finds a node's kind iff the topology has the node. |
| CandidateGeneration.AnyOrigin | backend/app/rca/candidate_generator.py:183-194 | True iff some affected or primary origin reaches the entity by the entry's typed traversal. |
| CandidateGeneration.FirstFitting | backend/app/rca/candidate_generator.py:181-208 | Chooses the first selected entity that is of a declared kind and located, and none iff none fits. |
| CandidateGeneration.Generate | backend/app/rca/candidate_generator.py:169-208 | Generates the specification's list of candidates. |
| CandidateGeneration.GeneratedCandidates | backend/app/rca/candidate_generator.py:95-108 | At most one candidate per hypothesis type, numbered consecutively, each a known node of the entry's kinds reached by the entry's traversal: where the catalogue's uniqueness check is used. |
| CandidateGeneration.GeneratesExactly | backend/app/rca/candidate_generator.py:169-208 | An entry yields a candidate iff its generation rule matches and some selected entity fits. |
| GenerationLaws.ChoiceIsChosen | backend/app/rca/candidate_generator.py:169-297 | An entry chooses nothing iff its rules fail or no offered entity is a known node of its kinds within its traversal of an affected entity; otherwise the primary entity, or the entity offered by the earliest event whose offer fits: a change's target, a signal's own entity or the dependency it names. |
| GenerationLaws.CandidatesAreChosen | backend/app/rca/candidate_generator.py:169-208 | The candidates are those choices, one per choosing entry, each at the place of its entry among the choosing ones. |
| CandidateGeneration.EmptyGeneratesExactly | backend/app/rca/candidate_generator.py:169-208 | For a valid bundle without events a candidate is generated iff some entry needs no signal and no recent change, selects the primary entity, and fits it. |
| Scoring.PatternObservations | backend/app/rca/ranker.py:149-181 | The observations of a pattern, deduplicated and in (timestamp, id) order. |
| Scoring.DirectLogAlertFactor | backend/app/rca/ranker.py:194-205 | The log and alert factor as specified over all attached events. |
| Scoring.RatioInUnit | backend/app/rca/ranker.py:208-211 | An observed-to-declared ratio is in [0, 1] and zero for an empty declaration. |
| Scoring.CountStages | backend/app/rca/ranker.py:249-265 | Counts the stages whose first occurrence is not earlier than the last counted stage's. |
| Scoring.PropagationFactor | backend/app/rca/ranker.py:249-265 | The counted share of the declared propagation chain. |
| Scoring.FullChainExactly | backend/app/rca/ranker.py:249-265 | Every stage counts iff every stage was observed and the observation times never decrease along the chain. |
| Scoring.ReadInUnit | backend/app/rca/ranker.py:214-410 | All rubric factors are read in [0, 1] for every valid bundle, entry, entity and path. |
| Scoring.NearestOrigin | backend/app/rca/ranker.py:231-246 | The first of the nearest origins, with the first shortest path from it in edge order, and none iff no origin is within the entry's bound. |
| Scoring.NearestIsDetermined | backend/app/rca/ranker.py:231-246 | The topology factor's origin and path are determined by the graph, the policy and the origins. |
| Scoring.GeneratedHasPath | backend/app/rca/ranker.py:214-246 | A generated candidate whose entry has no origin event types always gets a non-empty path from the ranker; in general a path exists iff some origin is within the entry's bound. |
| Scoring.ImpactNodes | backend/app/rca/ranker.py:281-289 | For a traffic entry the nodes within its own traversal bound, otherwise the topology path or, without one, the entity alone. |
| Scoring.MatchedFromCatalogue | backend/app/rca/ranker.py:367-375 | Every applied conflict is one of the entry's patterns with an attached source event. |
| Scoring.ConflictLowersReading | backend/app/rca/ranker.py:378-398 | The presence of a conflict changes only the causal-fit factor, and only downward. |
| Scoring.MoreConflictsNeverRaise | backend/app/rca/ranker.py:583-604 | Matching more conflicts never raises a candidate's published, rounded score, through both the reading and the effects. |
| Scoring.EffectsFailExactly | backend/app/rca/ranker.py:583-604 | The effects fail iff one names a factor outside the rubric. |
| Scoring.ScoreCandidate | backend/app/rca/ranker.py:553-613 | Scores a candidate as specified, a specification one score only meets and whose factors obey the laws of `FactorLaws.ScoreIsLawful`, and raises iff its type is not in the catalogue or a matched conflict names an unknown factor. |
| Scoring.ForeignFactorRefused | backend/app/rca/ranker.py:583-604 | A catalogue and a bundle the validators accept for which the ranker refuses the candidate: the matched pattern names no factor of the rubric. |
| Scoring.ScoreIsDetermined | backend/app/rca/ranker.py:553-613 | Whatever meets the specification for one candidate is the same score: factors, conflicts, origin and path included. |
| Scoring.LabelIsIdle | backend/app/rca/ranker.py:553-613 | A candidate's label plays no part in its score. |
| Scoring.Rank | backend/app/rca/ranker.py:615-633 | Returns the candidates' scores in the order of the sort key; raises iff some candidate is refused. |
| Scoring.RankIgnoresOrder | backend/app/rca/ranker.py:615-633 | Ranking two lists of candidates of different types that hold the same candidates, in any order and numbered anew or not, gives the same ranking but for the labels, and the same one if the labels agree. |
| Scoring.RefusalIgnoresOrder | backend/app/rca/ranker.py:615-633 | Whether ranking raises does not depend on the order either. |
| Scoring.GeneratedOnePerType | backend/app/rca/ranker.py:615-633 | The scores of generated candidates have one per catalogue type: what makes the sort key separate them. |
| Scoring.RankedByScore | backend/app/rca/ranker.py:615-633 | With one candidate per catalogue type no hypothesis is ranked above one with a higher score. |
| Scoring.MeritIsTotal | backend/app/rca/ranker.py:620-633 | With one candidate per catalogue type the sort key separates any two candidates. |
| FactorLaws.FirstShown | backend/app/rca/ranker.py:149-181 | A pattern has an observation iff some attached event shows it (an anomaly of a listed type is about the event, or its type or a payload flag is listed and its value within the limits), and the first observation is the earliest such event. |
| FactorLaws.RatioIsShare | backend/app/rca/ranker.py:208-211 | A ratio is the share to the nearest ten-thousandth, ties to the even one, and zero of nothing. |
| FactorLaws.ShareEnds | backend/app/rca/ranker.py:208-211 | A share of a non-empty whole reads 1.0 iff 20,000 times what is missing is at most the whole, and 0.0 iff 20,000 times what is there is. |
| FactorLaws.SymptomsObeyLaw | backend/app/rca/ranker.py:268-278 | The symptom factor is the share of the required symptoms that some attached event shows. |
| FactorLaws.SymptomEnds | backend/app/rca/ranker.py:268-278 | It is 1.0 iff a symptom is required and every one is shown, and 0.0 iff none is, for entries with fewer than 20,000 symptoms, from where on rounding blurs the ends. |
| FactorLaws.SymptomsNeverLower | backend/app/rca/ranker.py:268-278 | An incident that shows every required symptom another one shows has no smaller a symptom factor. |
| FactorLaws.SymptomsInScore | backend/app/rca/ranker.py:553-613 | In the score of a candidate without conflicts the published symptom factor has these ends. |
| FactorLaws.ChainCountsRises | backend/app/rca/ranker.py:249-265 | Counting against the last counted stage counts exactly the stages no earlier seen stage begins after. |
| FactorLaws.PropagationObeysLaw | backend/app/rca/ranker.py:249-265 | The propagation factor is the share of the stages that were seen and began no earlier than any seen stage before them. |
| FactorLaws.PathObeysLaw | backend/app/rca/ranker.py:214-246 | The path shown is a shortest walk from a nearest origin (where the origin events are, else the affected entities, else the primary one), and empty iff no origin is within the bound. |
| FactorLaws.TopologyObeysLaw | backend/app/rca/ranker.py:231-246 | The topology factor is 1.0 at an origin, 0.8 one hop from the nearest, 0.5 two hops within the bound, and else 0.0. |
| FactorLaws.LogsObeyLaw | backend/app/rca/ranker.py:184-205 | The log and alert factor is 1.0 iff both a log and an alert are about the candidate or name it, 0.6 iff exactly one kind does, and else 0.0. |
| FactorLaws.MetricObeysLaw | backend/app/rca/ranker.py:281-309 | The metric factor is the greatest score of a listed anomaly of a metric on a node the candidate bears on, and zero iff there is none or all are zero. |
| FactorLaws.HistoryObeysLaw | backend/app/rca/ranker.py:401-409 | The history factor is the greatest similarity of a past incident with this cause, or zero. |
| FactorLaws.TemporalObeysLaw | backend/app/rca/ranker.py:312-364 | The temporal factor is 1.0, 0.7 or 0.4 when the first symptom follows the candidate's first signal within one, three or five minutes, and else 0.0. |
| FactorLaws.ChangeObeysLaw | backend/app/rca/ranker.py:378-398 | The causal fit of a change is a quarter, and one more each if it precedes every symptom and there is one, if its key is plausible, and if no conflict matched: the check that it lies on the path never fails. |
| FactorLaws.ConflictsObeyLaw | backend/app/rca/ranker.py:367-375 | The conflicts are, in catalogue order, the entry's patterns that some attached event shows and no anomaly silences, each with the earliest such event. |
| FactorLaws.CoverageObeysLaw | backend/app/rca/ranker.py:539-546 | The ranker's coverage counts the expected kinds of evidence some attached event provides. |
| FactorLaws.ScoreIsFounded | backend/app/rca/ranker.py:553-613 | The path, conflicts and coverage shown with any score are those the bundle's records give. |
| FactorLaws.ScoreIsLawful | backend/app/rca/ranker.py:553-613 | The factors of any score are a table in which all eight factors obey their laws, after the effects of the conflicts in order; without conflicts they obey them themselves. |
| AnalysisEngine.TrafficPath | backend/app/rca/analysis_engine.py:119-140 | Of the shortest traffic paths from the candidate to affected entities within two hops, a longest one, and of those the lexicographically greatest; None iff there is none. |
| AnalysisEngine.TypedPaths | backend/app/rca/analysis_engine.py:105-152 | The published paths are exactly those the two named hypotheses supply. |
| AnalysisEngine.MarkIncident | backend/app/rca/analysis_engine.py:166-170 | After the first entries every node is marked as affected, or as primary when it is not the suspected root, and in no other way. |
| AnalysisEngine.NodeStateTable | backend/app/rca/analysis_engine.py:165-173 | However the dictionary was filled, every node ends with the state of its highest role: suspected root, primary, affected, within three traffic hops of the root, or none. |
| AnalysisEngine.ImpactPathEdges | backend/app/rca/analysis_engine.py:175-187 | The impact edges are exactly the consecutive pairs of the chosen shortest paths. |
| AnalysisEngine.EdgeStates | backend/app/rca/analysis_engine.py:188-213 | One state per listed traffic edge, in edge order. |
| AnalysisEngine.TopologyStates | backend/app/rca/analysis_engine.py:154-221 | Node and edge states together meet the states' specification. |
| AnalysisEngine.ListedEdges | backend/app/rca/analysis_engine.py:188-213 | The listed edges are exactly the traffic edges whose ends lie in the root's blast radius: impact paths never add one outside it. |
| AnalysisEngine.BlastDistinctExactly | backend/app/rca/analysis_engine.py:188-213 | The listed edges are distinct iff the bundle repeats no traffic edge of the blast radius. |
| AnalysisEngine.Analyse | backend/app/rca/analysis_engine.py:41-102 | Produces a complete explanation of the bundle, and raises iff no candidate is generated or one is refused. |
| AnalysisEngine.DraftAt | backend/app/rca/analysis_engine.py:67-77 | Every drafted conflict comes from an applied conflict of the hypothesis it names. |
| AnalysisEngine.ConflictsDrafted | backend/app/rca/analysis_engine.py:67-77 | Every applied conflict is drafted under its hypothesis. |
| EngineLaws.HypothesesShown | backend/app/rca/analysis_engine.py:41-102 | The i-th shown hypothesis is the i-th ranked candidate with its own score, factors and coverage, under the summary of its catalogue entry, and its requirement keys are those the entry lists. |
| EngineLaws.ConflictsAreShown | backend/app/rca/analysis_engine.py:67-77 | Every published conflict is a conflict of a shown hypothesis, under that hypothesis, with its own source, statement and code. |
| EngineLaws.ConflictsShown | backend/app/rca/analysis_engine.py:67-77 | And every such conflict is published. |
| EngineLaws.NodesShown | backend/app/rca/analysis_engine.py:154-173 | A node is listed with a state iff it is known and that is the state of its highest role. |
| EngineLaws.EdgesShown | backend/app/rca/analysis_engine.py:175-213 | An edge is listed as impact path iff it is a traffic edge on the first shortest path from the root to an affected entity within three hops, and as blast radius iff it is another traffic edge with both ends within three hops of the root. |
| AnalysisEngine.ResultIsValid | backend/app/rca/contracts.py:186-219 | For every valid bundle and catalogue the engine's result passes the result-graph validator. |
| Determinism.EngineIsDetermined | backend/app/rca/analysis_engine.py:41-102 | Two results for the same bundle, catalogue and matcher are equal: candidates, scores, ranking, conflicts, paths and topology states. |
| Determinism.TrafficImpactIsDetermined | backend/app/rca/analysis_engine.py:119-140 | Only one path meets the description of the published traffic path. |
| Determinism.StatesAreDetermined | backend/app/rca/analysis_engine.py:154-221 | Node and edge states are determined by the bundle and the suspected root. |
| Determinism.ResultIsRankedByScore | backend/app/rca/ranker.py:615-633 | The engine's published ranking runs from the best score down, ranks from the first on: no condition on the input is left. |
| Determinism.SupportedNeverRefused | backend/app/rca/ranker.py:583-604 | With a catalogue whose conflict patterns name only rubric factors no generated candidate is refused. |
| Determinism.AnalyseSupported | backend/app/rca/analysis_engine.py:41-102 | With such a catalogue the engine raises iff no candidate is generated. |
| Evidence.CollectEvidence | backend/app/evidence/collector.py:448-603 | The collection loops produce the specified sorted item list, whatever the events' order or repetition. |
| Evidence.MeetRequirements | backend/app/evidence/collector.py:473-493 | Each expected requirement yields one supporting item or one unmet entry. |
| Evidence.CollectConflicts | backend/app/evidence/collector.py:525-550 | Each conflict effect with a code and a resolvable source yields one conflicting item. |
| Evidence.MatchExactly | backend/app/evidence/collector.py:361-374 | A requirement has a latest match iff some in-scope event meets it. |
| Evidence.ExpectedKeys | backend/app/evidence/collector.py:161-180 | Expected requirements have distinct codes, the same codes as the catalogue lists. |
| Evidence.LastTemplateKept | backend/app/evidence/collector.py:161-180 | Of a requirement listed twice the template given last is kept. |
| Evidence.AcceptedIgnoresOrder | backend/app/evidence/collector.py:466-468 | The working event list depends only on the set of events. |
| Evidence.CoverageIsAvailability | backend/app/evidence/collector.py:437-445 | The coverage counted from the final sorted list is exactly the number of distinct expected requirements with an in-scope match, out of the number expected; conflicts and associations never change it. |
| Evidence.ItemsAreScoped | backend/app/evidence/collector.py:281-337 | Every item belongs to the hypothesis, run and incident; missing items are exactly those without a source event. |
| Evidence.EvidenceIgnoresOrder | backend/app/evidence/collector.py:448-603 | Permuting or duplicating the incident's events changes nothing. |
| Evidence.AppliedEffectsAppear | backend/app/evidence/collector.py:525-550 | Every applied conflict effect with an attached source has a conflicting item of its code. |
| EvidenceLaws.AcceptedExactly | backend/app/evidence/collector.py:466-468 | An event is worked on iff it is the last listed of its id. |
| EvidenceLaws.ItemsExactly | backend/app/evidence/collector.py:448-603 | An item is collected iff it stands for a listed requirement and cites the latest event in scope that meets it, or for one nothing meets, or for an applied effect (or, without any, an entry's pattern) and cites the event it rests on, or is the related signal or the alternative of the hypotheses that show one when nothing else does. |
| EvidenceLaws.ItemsOrdered | backend/app/evidence/collector.py:594-603 | Observed items come first, then correlated, conflicting and missing ones, then codes and ids ascend. |
| EvidenceIds.IdsDistinctExactly | backend/app/evidence/collector.py:256-270 | The hashed item ids of one hypothesis are distinct iff no two met requirements share reason code and latest source, no two unmet ones a reason code, and no two conflict effects code and source. |
| EvidenceSeparation.SeparatesExactly | backend/app/evidence/collector.py:473-583 | No incident's events can make the ids of a hypothesis collide iff no event meets two of its requirements with one reason code, no two requirements have one missing code, and no two conflict effects of one code cite one event or can be found by the code's pattern. |
| EvidenceSeparation.TimeoutsCollide | backend/app/evidence/collector.py:120-158 | A colliding entry: it expects `timeout_log` and `dependency_timeout`, both shown as DEPENDENCY_TIMEOUT_LOG, and one timeout log meets both. |
| Wording.SummaryWords | backend/app/explanation/template_engine.py:30-32 | A summary with a non-blank cause has at least eight words. |
| Wording.SummaryUnconfirmed | backend/app/explanation/template_engine.py:94-101 | The template's own words never spell "confirmed", not even across joins. |
| Wording.SummaryPassesExactly | backend/app/explanation/validator.py:81-87 | The summary passes the wording test iff neither cause label nor entity id contains "confirmed". |
| Explanation.AcceptedCitesOnlySupplied | backend/app/explanation/validator.py:37-128 | An accepted output of any author cites only supplied in-scope evidence and supplied, listed, applicable steps of the right type without repetition, and names the right run, incident and hypothesis. |
| Explanation.StepIdMembers | backend/app/explanation/template_engine.py:69-76 | The listed step ids are exactly the recommended ones of the type. |
| Explanation.StepIdsDistinct | backend/app/explanation/template_engine.py:69-76 | Without repetition, however often a step is recommended. |
| Explanation.TemplatePassesExactly | backend/app/explanation/template_engine.py:79-134 | With in-scope evidence, applicable steps and a non-blank cause the template exists and passes the validator iff neither label says "confirmed". |
| Explanation.Ask | backend/app/explanation/service.py:146-206 | The retry loop calls the provider at most twice, the second time exactly when the first answer may be retried. |
| Explanation.Generate | backend/app/explanation/service.py:107-208 | For every provider behaviour: fails iff the template does, otherwise answers with the template and at most one accepted provider row. |
| Explanation.ServiceResultPublishable | backend/app/orchestration/orchestrator.py:739-770 | Whatever the provider did, the rows pass the publisher's explanation check and the fallback metadata is consistent. |
| Explanation.KeptRowAccepted | backend/app/explanation/service.py:146-206 | A provider row that is kept cites only what was supplied and is of this run, incident and hypothesis. |
| ExplanationLaws.AcceptedExactly | backend/app/explanation/validator.py:37-128 | An output is accepted iff it is addressed to this run, incident and hypothesis by the expected author, the run is live where that is asked, the wording test passes, every claim cites something and only supplied evidence of the hypothesis, and its steps are recommended, listed, applicable and not repeated. |
| ExplanationLaws.ServedExactly | backend/app/explanation/service.py:146-206 | In provider mode the rows are the template and the first kept answer, if any; a second call is made iff the first answer was neither kept nor overtaken by another run; the fallback says stale iff the last answer was overtaken, and counts the calls made. |
| ExplanationLaws.TemplateTells | backend/app/explanation/template_engine.py:79-134 | The template makes one claim for every supplied evidence item and no other. |
| RcaAdapter.MapHypothesis | backend/app/orchestration/rca_adapter.py:152-274 | Maps one hypothesis to its rows, and fails iff its catalogue entry, coverage, entity or steps do not fit. |
| RcaAdapter.MapAll | backend/app/orchestration/rca_adapter.py:145-274 | The mapping loop gives one part per ranked hypothesis, in order, and all their rows. |
| RcaAdapter.ExplainTop | backend/app/orchestration/rca_adapter.py:276-313 | Explains the best hypothesis iff its template passes. |
| RcaAdapter.ToPublication | backend/app/orchestration/rca_adapter.py:124-357 | Returns the mapped rows with the engine's states, paths, codes and keys unchanged; succeeds iff every hypothesis maps and the best one's template passes. |
| AdapterLaws.MappedServes | backend/app/orchestration/rca_adapter.py:168-274 | A hypothesis on an entity of a known kind is mapped iff the coverage is confirmed and every step its entry declares is in the playbooks for its type and that kind. |
| AdapterLaws.UnknownNotMapped | backend/app/orchestration/rca_adapter.py:168-274 | One whose type is not in the catalogue, or whose entity the topology does not know, is not mapped. |
| AdapterLaws.RowsTell | backend/app/orchestration/rca_adapter.py:152-274 | A mapped hypothesis gives a row with its own rank, score and coverage and one recommendation per declared step, the diagnostic ones first. |
| AdapterLaws.ItemsTell | backend/app/orchestration/rca_adapter.py:168-199 | Its evidence is what the collection gives for its own entry and its own conflicts. |
| RcaAdapter.EngineOutputIsAdaptedExactly | backend/app/orchestration/rca_adapter.py:124-357 | For a valid engine result and a non-blank top cause label the adapter succeeds iff the collector's coverage and the playbooks agree with every hypothesis and neither the cause label nor the top entity id says "confirmed". |
| RcaAdapter.StatesKnown | backend/app/orchestration/orchestrator.py:698-718 | All node and edge states are of known nodes and typed edges, node states once each; edge states once each iff the topology repeats no blast-radius edge. |
| RcaAdapter.PathsKnown | backend/app/orchestration/orchestrator.py:720-724 | Every published path is named, non-empty and over known nodes. |
| RcaAdapter.RowsArePublishable | backend/app/orchestration/orchestrator.py:642-653 | Row ids are distinct, ranks consecutive from one, runs and incidents the right ones. |
| RcaAdapter.EvidenceIsPublishable | backend/app/orchestration/orchestrator.py:655-678 | Evidence and recommendations refer to published hypotheses of this run. |
| PublicationIds.PublishedIdsDistinctExactly | backend/app/orchestration/rca_adapter.py:145-274 | The evidence rows of a publication satisfy the table's primary key iff no single hypothesis's evidence has such a pair: rows of different hypotheses never collide. |
| PublicationIds.ApartIdsDistinct | backend/app/evidence/collector.py:120-158 | If every catalogue entry's requirements have different reason codes, met and missing, and its conflict patterns different ids, evidence ids are distinct in every publication, whatever the events. |
| PublicationIds.ExplainedIsLabelled | backend/app/rca/analysis_engine.py:41-77 | The engine's result is as these results ask: labels by place and different, and each hypothesis's drafted conflicts those its entry's patterns matched. |
| RecommendationIds.LabelsServe | backend/app/rca/analysis_engine.py:47-62 | Such labels differ and contain no separator of the hashed text. |
| RecommendationIds.StepIdsDistinctExactly | backend/app/orchestration/rca_adapter.py:237-274 | The recommendation rows of a publication have distinct ids iff no ranked hypothesis's entry declares a step twice. |
| RcaAdapter.CodesArePublishable | backend/app/orchestration/orchestrator.py:680-685 | Every declared conflict code is a catalogue code with a conflicting evidence row. |
| RcaAdapter.RequirementsArePublishable | backend/app/orchestration/orchestrator.py:687-696 | Requirement keys name published hypotheses and list distinct codes. |
| RcaAdapter.EngineOutputIsPublishable | backend/app/orchestration/orchestrator.py:635-724 | End to end: for every valid bundle and catalogue the mapped result passes every publication check unconditionally except edge-state uniqueness, and that one iff the topology repeats no traffic edge of the root's blast radius. |
| EndToEnd.AcceptedRowsAreValid | backend/app/orchestration/orchestrator.py:493-545 | What the checks accept is stored with every reference resolved inside the run and a template explanation present. |
| EndToEnd.StoredRowsTell | backend/app/orchestration/orchestrator.py:493-632 | What is stored for a publication: a row per hypothesis under its own id and rank, per evidence item, missing exactly when nothing met its requirement, per recommendation and per explanation with its author, in that order. |
| EndToEnd.EngineOutputIsAcceptedExactly | backend/app/orchestration/orchestrator.py:493-545 | From bundle to savepoint: the publication unit finds the engine's mapped output acceptable iff the topology repeats no traffic edge of the root's blast radius. |
| EndToEnd.RepeatedEdgeIsRefused | backend/app/rca/contracts.py:186-219 | A concrete valid bundle, the same traffic edge twice, whose engine result passes the result-graph validator and fails the publisher's edge-state check. |
| EndToEnd.RepeatedEdgeIsNotAccepted | backend/app/orchestration/orchestrator.py:698-718 | So no publication of that bundle is accepted, whatever the provider did. |
| EndToEnd.UnattachedRaises | backend/app/rca/analysis_engine.py:41-60 | For an incident without attached events the analysis raises if no entry that needs no signal fits the primary entity. |
| EndToEnd.RegisteredRevisionsBounded | backend/app/orchestration/orchestrator.py:808-887 | With the analysis engine registered and a catalogue whose entries all need a signal or a recent change, published revisions are at most the attached events in every history, unconditionally. |
| AnalysisDatabase.StepKeepsSound | backend/app/orchestration/orchestrator.py:398-632 | Opening, attaching, publishing and failing each keep: no building run left, at most one current run per incident and the pointer exactly on it, revisions distinct and the current one latest, children only of published runs. |
| AnalysisDatabase.PublishKeepsSound | backend/app/orchestration/orchestrator.py:596-632 | Publication keeps them although it changes two runs, the pointer, the children and the log. |
| AnalysisDatabase.FailKeepsSound | backend/app/orchestration/orchestrator.py:772-801 | So does recording a failure. |
| AnalysisDatabase.GrowthKeepsSound | backend/app/orchestration/orchestrator.py:383-396 | So does any growth of incidents and attachments by the incident manager. |
| AnalysisDatabase.EarlierInputs | backend/app/orchestration/orchestrator.py:411-424 | When the fingerprint differs, every published run saw strictly fewer attached events than there are now. |
| AnalysisDatabase.UpToDateExactly | backend/app/orchestration/orchestrator.py:411-424 | In sound tables an incident needs no new analysis iff a current run of it saw every attached event: one unseen event suffices for another. |
| AnalysisDatabase.StepEvolves | backend/app/db/models.py:200-239 | No step removes a row or changes the rows or snapshot of an existing run. |
| AnalysisDatabase.EvolvesChains | backend/app/db/models.py:200-239 | Immutability composes over any number of steps. |
| Publication.Session.MarkCurrent | backend/app/db/repositories/incident_repository.py:265-274 | Marks one run current, and fails iff the incident has another current run: the partial unique index. |
| Publication.Session.Supersede | backend/app/db/repositories/incident_repository.py:276-280 | Changes that run's status only. |
| Publication.Session.SetCurrentRun | backend/app/db/repositories/incident_repository.py:79-95 | Changes that incident's pointer, top hypothesis and status only. |
| Publication.Session.InsertChildren | backend/app/orchestration/orchestrator.py:535-565 | All rows are appended in order, or the insertion failed; succeeds iff no row insertion fails. |
| Publication.Session.StoreRows | backend/app/orchestration/orchestrator.py:517-590 | Rows, snapshot and the fallback audit row, all or failed; succeeds iff no sub-step fails. |
| Publication.Session.SwapCurrent | backend/app/orchestration/orchestrator.py:597-632 | Supersedes the prior run, marks the new one, moves the pointer and logs it; succeeds iff no sub-step fails: the unique index is never violated. |
| Publication.Session.AtomicPublish | backend/app/orchestration/orchestrator.py:493-632 | Succeeds iff the engine's output is acceptable and no sub-step fails, and then the database is exactly the stored and swapped one. |
| Publication.Session.PersistFailedRun | backend/app/orchestration/orchestrator.py:772-801 | The run becomes failed with one audit row and nothing else changes; succeeds iff no sub-step fails. |
| Publication.Session.GetNextRevision | backend/app/db/repositories/incident_repository.py:319-326 | One more than the largest revision of the incident, failed runs included. |
| Publication.Session.RunAndPublish | backend/app/orchestration/orchestrator.py:398-491 | Whatever sub-step fails, the database is afterwards the old one, the old one with the complete publication, or the old one with one failed run. The answer is "unchanged" only for a pointed-to run whose inputs are exactly the events attached now; an incident that points to no such run is published when the output is acceptable and nothing fails, and every other ending is characterised as exactly. |
| Publication.PublishedIs | backend/app/orchestration/orchestrator.py:493-632 | The sub-steps together are exactly one atomic publication step. |
| Publication.FailedIs | backend/app/orchestration/orchestrator.py:772-801 | A rolled-back attempt together with the failure record is exactly one failure step. |
| PublicationRuns.Handle | backend/app/orchestration/orchestrator.py:261-315 | One request leaves sound tables; a request does nothing when the pointed-to run saw exactly the events attached now; when it did not, the analysis is published if nothing fails, and recorded as failed when only the engine or its output does. |
| PublicationRuns.HandleAll | backend/app/orchestration/orchestrator.py:261-315 | Safety over whole runs: after any sequence of requests with any failures anywhere the committed tables are sound, everything published earlier is unchanged, and each committed state follows from the one before as one request allows. |
| PublicationRuns.OneCurrentRun | backend/app/db/models.py:229-239 | A run of an incident is current iff the incident's pointer names it. |
| PublicationRuns.FailureTouchesNothing | backend/app/orchestration/orchestrator.py:772-801 | A failure leaves incidents, children and all other runs as they were, and owns no rows. |
| PublicationRuns.PublicationIsComplete | backend/app/orchestration/orchestrator.py:513-632 | A published run owns exactly the engine's rows and snapshot, and the incident's top hypothesis is a best ranked one of them. |
| PublicationRuns.RevisionsBounded | backend/app/orchestration/orchestrator.py:808-887 | In sound tables an incident has at most one published revision more than it has attached events, and no more than that many if each run saw at least one. |
| Revisions.RevisionsBoundedExactly | backend/app/orchestration/orchestrator.py:808-887 | For every registered engine: published revisions are at most the attached events in every history iff the engine has no acceptable output for an incident with no attached event. |
| Revisions.WithoutEngineExceeds | backend/app/orchestration/orchestrator.py:398-491 | Without an engine the excess happens: an incident analysed before anything is attached has one published revision and no event. |
| PublicationRuns.StageAll | backend/app/orchestration/orchestrator.py:281-291 | The staging pass visits the events in order and lists each affected incident once, in order of first effect. |
| PublicationRuns.ProcessBatch | backend/app/orchestration/orchestrator.py:270-296 | A batch adds at most one run per affected incident; after a completed batch the run every affected incident points to is current and saw exactly the events attached to it; a batch in which nothing fails is completed; published runs and their rows survive every batch. |
| PublicationRuns.OneRevisionPerIncident | backend/app/orchestration/orchestrator.py:270-296 | Two runs added by one batch for the same incident are the same run. |
| PublicationRuns.BatchIgnoresOrder | backend/app/orchestration/orchestrator.py:283-286 | The staged tables and the affected incidents are the same for every order of the input list. |
| IncidentLife.ManagerManages | backend/app/orchestration/orchestrator.py:270-296 | A staging function that does with each event what the incident manager does at a desk matching the database meets all demands of the batch theorem. |
| IncidentLife.FollowIsManaged | backend/app/orchestration/orchestrator.py:383-396 | The manager's growth of incidents and attachments leaves the tables sound and every run and row as it was. |
| Readers.CurrentContext | backend/app/api/incidents.py:165-193 | Answers with the pointer captured once and the run row of the second query, or with exactly the error the two queries determine. |
| Readers.Group | backend/app/api/incidents.py:647-655 | Grouping by hypothesis keeps each group's rows and order and makes no empty group. |
| Readers.QueryParts | backend/app/api/incidents.py:636-690 | However many publications commit in between, the three queries show every hypothesis, evidence and recommendation row of the captured run, each as often as it is there, in its own part and under its own hypothesis, and no other row; hypotheses come by ascending rank. |
| Readers.QueryExplanation | backend/app/api/incidents.py:241-287 | The explanation of the captured top hypothesis, or of the best ranked: the provider's whenever the run has one, and of those of one generator the one with the greatest id; or exactly the error the captured run's rows determine. |
| Readers.Investigate | backend/app/api/incidents.py:628-751 | The answer, or the error, is determined by the first two queries alone apart from later reviews; the response shows all rows of the one captured run, missing evidence included, the preferred explanation and all its reviews, and the consistency assertion never raises. |
| Readers.ExplanationIsBest | backend/app/api/incidents.py:276-287 | There is an answer iff some explanation row is of the hypothesis, and then it is the provider's whenever there is one. |
| Readers.PartsComplete | backend/app/api/incidents.py:636-690 | Parts selected by kind and hypothesis leave no row of the run out and add none. |
| Readers.InvestigatePublished | backend/app/api/incidents.py:628-751 | A run that was published with some rows is shown with all of those rows, whatever happened between its publication and the queries. |
| Readers.PartsConsistent | backend/app/contracts/api.py:187-199 | Parts selected by one run id satisfy the response's consistency assertion. |
| Readers.ShowsThePublication | backend/app/api/incidents.py:628-751 | The rows shown are exactly those the run was published with, whatever was published or submitted since. |
| Readers.StaleExactly | backend/app/api/incidents.py:186-192 | A reader is told its analysis is stale iff the incident points elsewhere by the time of its second query. |
| Readers.UnreplacedIsAnswered | backend/app/api/incidents.py:628-751 | A reader whose pointer is not replaced between its first two queries is answered iff the run was published with a snapshot and an explanation of its top hypothesis. |
| Reviews.ReviewDesk.PersistIdempotent | backend/app/db/repositories/review_repository.py:32-55 | Inserts unless the (incident, action) pair exists, and then returns the stored row and changes nothing. |
| Reviews.ReviewDesk.Submit | backend/app/reviews/service.py:65-227 | A submission answers, refuses or records as the decision rules say, and a recorded one leaves exactly the review, its audit rows and the status transition. |
| ReviewLaws.DecidesExactly | backend/app/reviews/service.py:65-139 | Which submission is refused and why, and which is accepted, told from the tables: recorded action, unknown or closed incident, no analysis, outdated target, opposite decision, evidence that is not missing. |
| ReviewLaws.ExistingTells | backend/app/reviews/service.py:71-139 | A submission answered without being written is answered with a review of the same action, of the same hypothesis and decision, or of a request for the same item. |
| ReviewLaws.RecordedTells | backend/app/reviews/service.py:141-227 | An accepted review adds its own row and audit row; a confirmation resolves the incident, a rejection closes it iff every hypothesis of the run then has a rejecting review, and nothing else moves. |
| Reviews.SubmissionKeepsReviewed | backend/app/reviews/service.py:65-227 | Keeps: one review per (incident, action), one terminal decision per (hypothesis, run), one request per evidence item, audit rows one to one with reviews, and closure justified by reviews. |
| Reviews.StepKeepsReviewed | backend/app/orchestration/orchestrator.py:398-632 | Publications keep them too. |
| Reviews.InterleavingsKeepReviewed | backend/app/reviews/service.py:65-227 | So every state of every interleaving of submissions and publications satisfies them; in particular a rejected incident has a published run all of whose hypotheses were rejected. |
| Reviews.InterleavingsEvolve | backend/app/reviews/service.py:65-227 | Along any interleaving nothing published or recorded is lost, which is what readers rely on. |
| Reviews.RecordedActionReplays | backend/app/reviews/service.py:71-76 | A recorded action replays to the same review in every later state, closed or superseded included. |
| Reviews.AcceptedIsRecorded | backend/app/reviews/service.py:65-227 | Replaying an accepted submission right away returns its own review. |
| Reviews.SharedAnswerReplaysExactly | backend/app/reviews/service.py:110-139 | A request answered with another action's review replays to the same review later iff the incident is still open on that run and, for an evidence request, undecided. |
| Reviews.SharedAnswerLost | backend/app/reviews/service.py:78-118 | Two operators, two hypotheses: a concrete state in which such a replay is refused because the incident closed meanwhile. |
| Reviews.LateWriteKeepsOneTerminalExactly | backend/app/db/repositories/review_repository.py:32-55 | If the checks and the write see different states, the hypothesis keeps one terminal decision iff the action is already recorded, the decision is not terminal, or no terminal decision exists at the write. |
| Reviews.LateWriteDoubles | backend/app/db/repositories/review_repository.py:32-55 | Two submissions accepted on the same concrete state, the second written after the first: two terminal decisions on one hypothesis. |
| Reviews.RecomputeReopens | backend/app/db/repositories/incident_repository.py:79-95 | Publishing for a resolved incident reopens it and leaves a confirmed hypothesis that is not of the new run. |
| Attachment.ScoreRelationship | backend/app/incidents/manager.py:256-285 | Entity, hop and trace points are exactly those of the event's relation to the incident, with their reasons, and the event is related iff it is on the primary entity, at most two traffic hops away, or of the incident's trace. |
| Attachment.ScoreSymptoms | backend/app/incidents/manager.py:287-318 | Adds the symptom family, trace mismatch and proximity contributions and their reasons. |
| Attachment.ScoreAttachment | backend/app/incidents/manager.py:232-342 | A late event scores nothing; any other scores 40, 30 or 15 for place, 40 or -20 for trace, 20 or -25 for family and 10 for time, capped, with the reasons in order and once each, and attaches iff it carries a signal, is related and reaches the threshold. |
| Attachment.ReasonsTell | backend/app/incidents/manager.py:232-342 | The recorded reasons tell exactly which conditions held; an incompatible family suppresses the hop reasons. |
| Attachment.ReasonsShowHops | backend/app/incidents/manager.py:261-303 | The hop reasons are shown exactly for one or two traffic hops, unless the event's family is incompatible. |
| Attachment.FirstHopCosts | backend/app/incidents/manager.py:256-267 | All else equal, an event on the primary entity scores at least as much as one a hop away, and ten points more short of the caps. |
| Attachment.SecondHopCosts | backend/app/incidents/manager.py:261-271 | One a hop away at least as much as one two hops away, and fifteen more short of the caps. |
| Attachment.UnrelatedCosts | backend/app/incidents/manager.py:261-271 | One two hops away at least as much as one further away, and fifteen more short of the caps. |
| Attachment.SharedTraceGains | backend/app/incidents/manager.py:273-285 | Sharing the incident's trace gains forty points over having none. |
| Attachment.OtherTraceCosts | backend/app/incidents/manager.py:277-307 | Being of another trace costs twenty. |
| Attachment.FamilyGains | backend/app/incidents/manager.py:287-293 | A type of the incident's family gains twenty points over one that has nothing to do with it. |
| Attachment.ClashCosts | backend/app/incidents/manager.py:288-303 | An incompatible type costs twenty-five. |
| Attachment.ProximityGains | backend/app/incidents/manager.py:309-318 | An event within a minute of the start, or of the opening event in a lookback, gains ten points over one that is not. |
| Attachment.UntracedAttachesExactly | backend/app/incidents/manager.py:232-342 | At the default settings an anomalous live event within a minute of the start, without trace and with no family to compare, attaches iff it is on the primary entity or one hop from it. |
| Attachment.OpeningAttachesExactly | backend/app/incidents/manager.py:355-411 | An incident attaches its own opening event iff the threshold is at most the opening points: 50, plus 40 with a trace, plus 20 with a known family, capped at 100. |
| Attachment.OpeningAlwaysAttaches | backend/app/incidents/manager.py:355-411 | With a threshold of at most 0.50 it always does. |
| Attachment.OpeningMissed | backend/app/incidents/manager.py:355-411 | With a threshold of 0.90 an opening event without trace and known family has 50 points and does not attach. |
| Incidents.BumpedIsRecomputed | backend/app/incidents/manager.py:492-508 | Updating the aggregates by one attachment equals recomputing count, severity, start, last event and affected entities from all attached events. |
| Incidents.SeverityStep | backend/app/db/repositories/incident_repository.py:57-62 | Taking the larger rounded severity equals rounding the largest score. |
| IncidentLaws.RowTells | backend/app/incidents/manager.py:492-508 | The recomputed row starts and ends with its earliest and latest event and affects the opening entity first and exactly those with an actionable anomaly, each once. |
| IncidentLaws.SeverityTells | backend/app/db/repositories/incident_repository.py:57-62 | Its severity is the greatest actionable score, or zero, to the nearest hundredth, ties to the even one. |
| IncidentLaws.CountTells | backend/app/db/repositories/incident_repository.py:41-77 | Every attached event adds the number of its actionable anomalies to the count. |
| Incidents.UpdateRow | backend/app/db/repositories/incident_repository.py:41-77 | The repository updates together are the aggregate update. |
| Incidents.AttachmentRecorded | backend/app/incidents/manager.py:465-528 | An attached decision keeps: decisions, attached pairs and log agree, every pair once, every row the recomputation from its log. |
| Incidents.OpeningRecorded | backend/app/incidents/manager.py:355-381 | A new incident row keeps them. |
| Incidents.Manager.PersistEvaluation | backend/app/incidents/manager.py:465-528 | First write wins: an already decided pair changes nothing; otherwise exactly the decision, the attachment and the aggregates. |
| Incidents.Manager.CreateIncident | backend/app/incidents/manager.py:355-381 | Adds the row of the opening event and nothing else. |
| Incidents.Manager.NoteStatus | backend/app/db/repositories/incident_repository.py:79-95 | Closing or reopening changes that row's status only and keeps every aggregate equal to its recomputation. |
| Incidents.Manager.ListOpen | backend/app/db/repositories/incident_repository.py:135-139 | The open incidents, once each, newest start first. |
| Incidents.Manager.Consider | backend/app/incidents/manager.py:173-184 | Scores the event against every listed incident as it stands. |
| Incidents.Manager.SelectBest | backend/app/incidents/manager.py:186-191 | An attachable incident of highest score, then latest last event, then first in the list; none iff none attaches. |
| Incidents.Manager.PersistAll | backend/app/incidents/manager.py:192-208 | Stores one decision per listed incident, an attached one for another than the selected incident as excluded. |
| Incidents.Manager.Route | backend/app/incidents/manager.py:171-228 | The best match (score, last event, start) is chosen among all attachable open incidents, every open incident not yet decided gets its decision, earlier decisions stand, and a row or an attachment changes only with a new attaching decision. |
| Incidents.Manager.ProcessAnomalies | backend/app/incidents/manager.py:163-230 | Routes the event; opens an incident iff nothing is attachable, an eligible anomaly exists and the entity is known; keeps the aggregates equal to their recomputation. |
| IncidentLaws.OpensExactly | backend/app/incidents/manager.py:163-230 | An incident is opened iff no open incident takes the event, one of the event's own anomalies is above the opening threshold, eligible and no mere context, and its entity is known. |
| IncidentLaws.ScoredInContext | backend/app/incidents/manager.py:530-562 | A live event is scored against the incident's own row in a context whose trace is that of the earliest attached event with one and whose family and time are those of the earliest of a known family. |
| IncidentLaws.StoredExactly | backend/app/incidents/manager.py:186-208 | A decision is stored as it is, except that an attached one for another than the selected incident is stored as excluded with that reason added. |
| IncidentLaws.WindowExactly | backend/app/incidents/manager.py:413-420 | The lookback window holds exactly the accepted events no later than the opening one and no older than the lookback. |
| Incidents.OneNewAttachment | backend/app/incidents/manager.py:186-209 | A routed event is newly attached to at most one existing incident, and to it iff it is the best match. |
| Incidents.Manager.OpenWith | backend/app/incidents/manager.py:355-411 | Creates the incident and decides its opening event with the opening score. |
| Incidents.Manager.OpenIncident | backend/app/incidents/manager.py:355-463 | The result is the opening decision followed by the lookback over its candidates in time order, each scored against the row as the earlier ones left it. |
| Incidents.OpeningDecidesWindow | backend/app/incidents/manager.py:412-463 | After opening, the opening event has its own score and every other anomalous event of the window is decided, for this incident only. |
| Incidents.DecidedOnce | backend/app/incidents/manager.py:465-528 | A lookback over already decided events changes nothing. |
| Incidents.RoutedOnce | backend/app/incidents/manager.py:465-528 | Nor does the live pass: an incident that decided the event before keeps its row, its decision and its attachments when the event is routed. |
| Incidents.RoutedAgainIsIdle | backend/app/incidents/manager.py:163-230 | Routing an event all open incidents have decided changes nothing at all. |
| IncidentLife.LifeKeepsAlive | backend/app/incidents/manager.py:163-230 | Whatever events, publications, failures and reviews happen, in any order, the publication and review invariants hold and the manager's rows have the incidents, open statuses and attached events of the database. |
| IncidentLife.LifeOnlyAdds | backend/app/incidents/manager.py:465-528 | Along any such life no decision, attachment, incident, published row or review is lost. |
| IncidentLife.BarredIsUntouched | backend/app/incidents/manager.py:171-228 | The next event leaves a closed incident, and one that decided the event before, exactly as it was. |
| IncidentLife.DecidedForLife | backend/app/incidents/manager.py:465-528 | Once an incident has decided an event, submitting that event again at any later time changes neither its row nor its attachments, whatever closed and reopened it in between. |
| IncidentLife.PublicationReopens | backend/app/db/repositories/incident_repository.py:79-95 | After a publication its incident is on the manager's list again, whatever its status was. |
| IncidentLife.ConfirmationCloses | backend/app/db/repositories/incident_repository.py:97-104 | After an accepted confirmation it is not. |
| Incidents.Manager.DecideEarlier | backend/app/incidents/manager.py:452-462 | Decides one candidate with its lookback score. |
| Incidents.Manager.DecideAll | backend/app/incidents/manager.py:452-462 | Decides every candidate in order. |
| Incidents.Manager.Lookback | backend/app/incidents/manager.py:413-463 | Decides exactly the lookback candidates. |
| Incidents.NoteNormal | backend/app/incidents/manager.py:436-443 | Notes a normal event under each of its rule keys, replacing only by a strictly later one. |
| Incidents.Classify | backend/app/incidents/manager.py:426-443 | One pass finds the anomalous events and, per rule key, the first among the latest normal ones. |
| Incidents.LookbackCandidates | backend/app/incidents/manager.py:413-451 | The candidates, in time order: every other anomalous event of the window with its anomalies and for every rule key the normal event to keep, and nothing else. |
| Ingestion.BucketRange | backend/app/ingestion/pipeline.py:69-82 | The timestamps a bucket number covers, for positive, negative and zero buckets. |
| Ingestion.SpanBelowBucketExactly | backend/app/ingestion/pipeline.py:69-82 | Any two timestamps of bucket b span less than one bucket iff b is not 0: truncation toward zero makes bucket 0 wider. |
| Ingestion.SpanAfterEpoch | backend/app/ingestion/pipeline.py:69-82 | Two timestamps of one bucket, neither before 1970, are less than one bucket apart. |
| Ingestion.GroupSpan | backend/app/ingestion/pipeline.py:69-82 | Every group, from first to last event, spans less than one bucket unless it is of bucket 0 and began before 1970, and less than a second more in any case. |
| Ingestion.WideGroup | backend/app/ingestion/pipeline.py:69-82 | A concrete group of bucket 0, begun half a second before 1970, that spans more than one bucket. |
| Resubmission.IngestedWide | backend/app/ingestion/adapters/gaia_run.py:41-90 | Two alerts of the `gaia.run` source, ingested one after the other, make such a group for every bucket size. |
| Ingestion.CollapseKeepsGroups | backend/app/db/repositories/event_repository.py:47-63 | Incrementing a group keeps: one group per fingerprint, counts and time bounds those of its members, an accepted representative, counts summing to the members. |
| Ingestion.CollapseKeepsEach | backend/app/db/repositories/event_repository.py:47-63 | Counting one more member keeps every group's count, bounds and representative those of its members. |
| Ingestion.AcceptKeepsGroups | backend/app/ingestion/pipeline.py:268-279 | A new group of an accepted event keeps them. |
| Ingestion.Pipeline.Quarantine | backend/app/ingestion/pipeline.py:296-342 | Adds one reason and changes nothing else. |
| Ingestion.Pipeline.Collapse | backend/app/ingestion/pipeline.py:234-266 | Changes exactly the fingerprint's group. |
| Ingestion.Pipeline.Accept | backend/app/ingestion/pipeline.py:268-279 | Stores the event, with a group of its own iff it is collapsible. |
| Ingestion.Pipeline.Ingest | backend/app/ingestion/pipeline.py:142-294 | Every record has exactly one outcome, which its form and the tables determine; a retry changes no state; answer and new tables are those of the specification functions, whose meaning is stated for each outcome. |
| Ingestion.AnswerDescribed | backend/app/ingestion/pipeline.py:142-294 | What each answer tells: the reason of a quarantine, the stored event of a retry, the group joined, the event stored with or without a group, the id taken; and when a record is collapsed or retried, exactly. |
| IngestionLaws.QuarantinedExactly | backend/app/ingestion/pipeline.py:156-209 | A record is quarantined for the first thing wrong with it, and iff something is. |
| IngestionLaws.AnswersExactly | backend/app/ingestion/pipeline.py:219-279 | A well-formed record is a retry iff its source delivered it before, else collapsed iff it is an alert or a repeatable log and a group counts records of its entity, modality, type, signal and bucket, else refused iff its id is taken. |
| IngestionLaws.CountsExactly | backend/app/ingestion/pipeline.py:233-279 | An accepted repeatable record starts a group that counts it alone; a collapsed one is counted by its group, whose bounds widen just enough. |
| Ingestion.Pipeline.IngestAll | backend/app/ingestion/pipeline.py:142-294 | Over any sequence the number of stored events and reasons grows by the accepted and quarantined records, and the sum of group counts by the collapsed and the accepted collapsible ones. |
| Resubmission.TwiceIdleExactly | backend/app/ingestion/pipeline.py:216-279 | Submitted twice in a row, a record's second submission changes nothing iff it is well formed and, before both, is stored under its source record id, or is not collapsible, or finds no group and carries a source record id or a taken event id. |
| Resubmission.IngestTwice | backend/app/ingestion/pipeline.py:142-294 | The pipeline given a record twice: the second answer is a retry or a duplicate id iff that condition held before. |
| Resubmission.CollapsedAgain | backend/app/ingestion/pipeline.py:233-264 | A collapsed record is collapsed again and counted again, each time it comes. |
| Resubmission.CountedTwice | backend/app/ingestion/pipeline.py:233-264 | Two concrete alerts of one fingerprint, the second submitted twice: the group counts three. |
| AuditPaging.CursorContinues | backend/app/db/repositories/audit_repository.py:114-145 | The rows after the cursor of the n-th newest row are exactly the newest-first list from n on, with any timestamp ties. |
| AuditPaging.PageIsStretch | backend/app/db/repositories/audit_repository.py:114-145 | A page is the next stretch of the newest-first list. |
| AuditPaging.AllPages | backend/app/api/incidents.py:371-390 | The page loop ends and returns the whole list, newest first. |
| AuditPaging.AllRecords | backend/app/api/incidents.py:371-390 | Every record once, in ascending (timestamp, id) order. |
| AuditPaging.ShowPage | backend/app/api/incidents.py:513-535 | A page of at most the limit, with a continuation iff more rows are left than it shows; from the n-th row it is the next stretch of the full list. |
| AuditPaging.WalkPages | backend/app/api/incidents.py:513-535 | Walking pages of any limit concatenates to the same full list, all but the last page full. |
| AuditGrowth.WalkDescends | backend/app/api/incidents.py:513-535 | While the log grows between its pages in any way, a walk still shows records newest first and none twice. |
| AuditGrowth.ShownExactly | backend/app/api/incidents.py:513-535 | A record that enters the log before some page is read is shown iff it lies beyond the last record shown until then; in particular the walk misses no record the log had at its first page. |
| AuditGrowth.RecordMissed | backend/app/api/incidents.py:513-535 | A concrete walk of two pages that ends without showing the record that arrived between them. |
| AuditGrowth.LaterRecordsHidden | backend/app/api/incidents.py:371-390 | If only later records are added meanwhile, the walk shows exactly the log as it was at the first page, newest first. |
| AuditGrowth.WalkLog | backend/app/api/incidents.py:513-535 | The client's loop over a growing log is such a walk, and it ends where a page says there is no more. |
| Base64Url.PaddedRoundTrip | backend/app/api/incidents.py:336-353 | Encoding with padding and decoding gives the bytes back (sections 4 and 5 of RFC 4648). |
| Base64Url.PadUndoesStrip | backend/app/api/incidents.py:336-353 | Restoring the padding from the length undoes stripping it (section 3.2 of RFC 4648). |
| Base64Url.CursorRoundTrip | backend/app/api/incidents.py:336-353 | The unpadded cursor decodes to the bytes it was made from. |
| Base64Url.CursorIsSafe | backend/app/api/incidents.py:336-343 | A cursor uses only the characters of the URL-safe alphabet. |
| Base64Url.KnownEncodings | backend/app/api/incidents.py:336-343 | The encodings of one, two and three octets from the test vectors of RFC 4648, and the two characters peculiar to the URL-safe alphabet. |

## Left out

- TopologyGraph.GetNeighbors: takes the library's distances as a parameter; the library's own search is not part of this model.
- TopologyGraph.LoadNodes: the fixture's header (schema version, content version, list-valued fields) is not checked.
- EwmaStore.Store.Flush: a flush whose exception is swallowed and a session rollback after a put are outside the store's contract.
- Publication.Session.AtomicPublish: the publisher's checks other than run, incident and reference consistency come in as a verdict; `RcaAdapter.EngineOutputIsPublishable` models those checks and `EndToEnd.EngineOutputIsAcceptedExactly` joins the two.
- PublicationRuns.ProcessBatch: detection and incident handling of one event are one staging function, which `IncidentLife.ManagerManages` relates to the incident manager; the source runs all detections first. The caller's commit and the audit rows of staging are not in it.
- Readers.Investigate: timeline items, the order within evidence and recommendation groups, and the choice between two explanations by creation time are not modelled.
- Reviews.ReviewDesk.Submit: comments, names and timestamps of submissions are dropped.
- Evidence.CollectEvidence: statements and relevance values are not modelled, nor are quarantined events, which the adapter never passes.
- Explanation.Generate: the evidence bundle given to the provider, the pattern of fallback reason codes and exceptions of the run lookup are not modelled.
- Wording.SummaryPassesExactly: case folding is for ASCII letters.
- RcaAdapter.ToPublication: topology snapshot text and presentation fields of recommendations are dropped; agreement of the ranker's and the collector's matcher tables is the run-time coverage check, not a theorem.
- Scoring.ScoreCandidate: payloads are flat maps of text and flags, and the availability of a requirement is an arbitrary predicate.
- CandidateGeneration.Generate: the reason codes recorded with a candidate are dropped.
- Incidents.Manager.ListOpen: the query leaves the order of incidents with one start to the database; the model takes their ids.
- Incidents.Manager.PersistEvaluation: audit rows of attachment decisions, titles and matched rule ids are not modelled.
- Ingestion.Pipeline.Ingest: adapters, redaction and audit rows are not modelled; a duplicate fingerprint is a tuple, so a separator inside a field cannot make two of them collide.
- Base64Url.CursorRoundTrip: the JSON inside a cursor and the discarding of characters outside the alphabet are not modelled.
- SQLAlchemy sessions, migrations, FastAPI routing, YAML and JSON loading, report rendering, the simulator and the frontend: input and output around the modelled logic.
- The rolling z-score and the single-branch alert, log, trace, threshold and configuration detectors: library behaviour or one comparison each.
- The demo reset as an interleaved step, the per-event flush of `DetectorService.evaluate_event`, `process_event` and the thread lock: each modelled call is taken as atomic.
- `get_path` of the topology graph without a hop bound: a library call.
- IEEE rounding of floats: the model is over exact numbers.
