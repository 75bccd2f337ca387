/** The recommendation rows of one publication: when their hashed ids satisfy the primary key. */
module RecommendationIds {
  import opened AnalysisEngine
  import opened Common
  import opened PublicationIds
  import opened RcaAdapter
  import opened RcaContracts
  import opened Scoring
  import opened Sorting
  import Explanation

  function StepIdsOf(rows: seq<RecommendationRow>): seq<string> {
    Mapped(rows, (row: RecommendationRow) => row.id)
  }

  /** Text before the first bar. */
  function UpToBar(text: string): string {
    if text == [] || text[0] == '|' then [] else [text[0]] + UpToBar(text[1..])
  }

  lemma {:induction false} UpToBarIs(x: string, rest: string)
    requires '|' !in x
    ensures UpToBar(x + ("|" + rest)) == x
  {
    if x == [] {
      assert x + ("|" + rest) == "|" + rest;
    } else {
      assert (x + ("|" + rest))[1..] == x[1..] + ("|" + rest);
      UpToBarIs(x[1..], rest);
    }
  }

  lemma {:induction false} DigitsBarless(n: nat)
    ensures '|' !in Digits(n)
  {
    if n >= 10 {
      DigitsBarless(n / 10);
    }
  }

  lemma LabelBarless(n: nat)
    ensures '|' !in HypothesisLabel(n)
  {
    DigitsBarless(n);
  }

  lemma DistinctJoin<T>(a: seq<T>, b: seq<T>)
    requires forall x :: x in a ==> x !in b
    ensures Distinct(a + b) <==> Distinct(a) && Distinct(b)
  {
    var ab := a + b;
    if Distinct(a) && Distinct(b) {
      DistinctConcat(a, b);
    }
    if Distinct(ab) {
      forall i, j | 0 <= i < j < |a| ensures a[i] != a[j] {
        assert ab[i] != ab[j];
      }
      forall i, j | 0 <= i < j < |b| ensures b[i] != b[j] {
        assert ab[|a| + i] != ab[|a| + j];
      }
    }
  }

  /** The steps a ranked hypothesis's entry declares. */
  function StepsOf(u: Setup, r: Ranked): seq<string> {
    var i := EntryIndex(u.catalogue.hypotheses, r.hypothesisType);
    if i == |u.catalogue.hypotheses| then [] else DeclaredSteps(u.catalogue.hypotheses[i])
  }

  lemma StepKeysDiffer(r: Ranked, q: Ranked, a: string, b: string)
    requires '|' !in r.id && '|' !in q.id
    ensures StepKey(r, a) == StepKey(q, b) <==> r.id == q.id && a == b
  {
    UpToBarIs(r.id, a);
    UpToBarIs(q.id, b);
    assert StepKey(r, a) == r.id + ("|" + a) && StepKey(q, b) == q.id + ("|" + b);
    assert StepKey(r, a)[|r.id| + 1..] == a && StepKey(q, b)[|q.id| + 1..] == b;
  }

  lemma OwnStepsDistinctExactly(run: Explanation.Run, u: Setup, r: Ranked)
    requires Injective(u.digest) && '|' !in r.id
    ensures Distinct(StepIdsOf(RecommendationsOf(run, u, r))) <==> Distinct(StepsOf(u, r))
  {
    var ids, steps := StepIdsOf(RecommendationsOf(run, u, r)), StepsOf(u, r);
    assert |ids| == |steps|;
    forall i, j | 0 <= i < j < |ids| ensures ids[i] == ids[j] <==> steps[i] == steps[j] {
      assert ids[i] == u.digest(StepKey(r, steps[i])) && ids[j] == u.digest(StepKey(r, steps[j]));
      StepKeysDiffer(r, r, steps[i], steps[j]);
    }
  }

  // ---------------------------------------------------------------- lists joined

  ghost predicate NotShared(ids: nat -> seq<string>, i: nat, j: nat) {
    forall id :: id in ids(i) ==> id !in ids(j)
  }

  ghost predicate AllOnce(ids: nat -> seq<string>, n: nat) {
    forall i :: 0 <= i < n ==> Once(ids, i)
  }

  ghost predicate Once(ids: nat -> seq<string>, i: nat) {
    Distinct(ids(i))
  }

  /** Lists without common members join to a list without repetition exactly when each has none. */
  lemma {:induction false} JoinedOnceExactly(ids: nat -> seq<string>, n: nat)
    requires forall i, j :: 0 <= i < j < n ==> NotShared(ids, i, j)
    ensures Distinct(Joined(ids, n)) <==> AllOnce(ids, n)
  {
    if n > 0 {
      JoinedOnceExactly(ids, n - 1);
      assert AllOnce(ids, n) <==> AllOnce(ids, n - 1) && Once(ids, n - 1);
      var before, last := Joined(ids, n - 1), ids(n - 1);
      forall id | id in before ensures id !in last {
        var i := JoinedFrom(ids, n - 1, id);
        assert NotShared(ids, i, n - 1);
      }
      DistinctJoin(before, last);
    }
  }

  // ---------------------------------------------------------------- the publication's recommendations

  /** The ids of the recommendations of each ranked hypothesis. */
  function StepIdsIn(run: Explanation.Run, u: Setup, c: Computation): nat -> seq<string> {
    (i: nat) => if i < |c.ranked| then StepIdsOf(RecommendationsOf(run, u, c.ranked[i])) else []
  }

  lemma StepIdsConcat(a: seq<RecommendationRow>, b: seq<RecommendationRow>)
    ensures StepIdsOf(a + b) == StepIdsOf(a) + StepIdsOf(b)
  {
  }

  lemma {:induction false} JoinedIsAll(run: Explanation.Run, u: Setup, b: Bundle, c: Computation, parts: seq<Part>)
    requires |parts| <= |c.ranked| && Pairwise(PartIn(run, u, b, c), c.ranked, parts)
    ensures StepIdsOf(AllRecommendations(parts)) == Joined(StepIdsIn(run, u, c), |parts|)
  {
    if parts != [] {
      var n := |parts| - 1;
      JoinedIsAll(run, u, b, c, parts[..n]);
      LastSteps(run, u, b, c, c.ranked[n], parts[n]);
      StepIdsConcat(AllRecommendations(parts[..n]), parts[n].recommendations);
    }
  }

  lemma LastSteps(run: Explanation.Run, u: Setup, b: Bundle, c: Computation, r: Ranked, part: Part)
    requires PartIn(run, u, b, c)(r, part)
    ensures part.recommendations == RecommendationsOf(run, u, r)
  {
  }

  ghost predicate Barless(ranked: seq<Ranked>) {
    forall i :: 0 <= i < |ranked| ==> '|' !in ranked[i].id
  }

  /** Recommendations of different hypotheses have different ids. */
  lemma StepsApart(run: Explanation.Run, u: Setup, c: Computation, i: nat, j: nat, id: string)
    requires Injective(u.digest) && Distinct(RankedIds(c.ranked)) && Barless(c.ranked) && i < j < |c.ranked|
    requires id in StepIdsOf(RecommendationsOf(run, u, c.ranked[i]))
    ensures id !in StepIdsOf(RecommendationsOf(run, u, c.ranked[j]))
  {
    assert RankedIds(c.ranked)[i] != RankedIds(c.ranked)[j];
    var rows, others := RecommendationsOf(run, u, c.ranked[i]), RecommendationsOf(run, u, c.ranked[j]);
    var k :| 0 <= k < |rows| && StepIdsOf(rows)[k] == id;
    forall l | 0 <= l < |others| ensures others[l].id != id {
      StepKeysDiffer(c.ranked[i], c.ranked[j], rows[k].stepId, others[l].stepId);
    }
  }

  /** The engine's labels have no bar, and differ. */
  lemma LabelsServe(c: Catalogue, b: Bundle, r: Computation)
    requires AllLabelled(c, b, r)
    ensures Barless(r.ranked) && Distinct(RankedIds(r.ranked))
  {
    forall i | 0 <= i < |r.ranked| ensures '|' !in r.ranked[i].id {
      assert Labelled(c, b, r, i);
      LabelBarless(i + 1);
    }
  }

  /** None of the ranked hypotheses' entries declares a step twice. */
  ghost predicate StepsOnce(u: Setup, ranked: seq<Ranked>) {
    forall i :: 0 <= i < |ranked| ==> Distinct(StepsOf(u, ranked[i]))
  }

  lemma EachOnceExactly(run: Explanation.Run, u: Setup, c: Computation)
    requires Injective(u.digest) && Distinct(RankedIds(c.ranked)) && Barless(c.ranked)
    ensures Distinct(Joined(StepIdsIn(run, u, c), |c.ranked|)) <==> StepsOnce(u, c.ranked)
  {
    var ids := StepIdsIn(run, u, c);
    forall i, j | 0 <= i < j < |c.ranked| ensures NotShared(ids, i, j) {
      forall id | id in ids(i) ensures id !in ids(j) {
        StepsApart(run, u, c, i, j, id);
      }
    }
    JoinedOnceExactly(ids, |c.ranked|);
    forall i | 0 <= i < |c.ranked| ensures Once(ids, i) <==> Distinct(StepsOf(u, c.ranked[i])) {
      OwnStepsDistinctExactly(run, u, c.ranked[i]);
    }
  }

  /** The recommendation rows of a publication have distinct ids exactly when no ranked hypothesis's entry
      declares a step twice. */
  lemma StepIdsDistinctExactly(run: Explanation.Run, u: Setup, b: Bundle, c: Computation, parts: seq<Part>)
    requires Injective(u.digest) && Distinct(RankedIds(c.ranked)) && Barless(c.ranked)
    requires |parts| == |c.ranked| && Pairwise(PartIn(run, u, b, c), c.ranked, parts)
    ensures Distinct(StepIdsOf(AllRecommendations(parts))) <==> StepsOnce(u, c.ranked)
  {
    EachOnceExactly(run, u, c);
    JoinedIsAll(run, u, b, c, parts);
  }
}
