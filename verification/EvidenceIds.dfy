/** When evidence rows can be stored: their ids are hashes, and the primary key wants them distinct. */
module EvidenceIds {
  import opened Common
  import opened Contracts
  import opened Evidence
  import opened Sorting

  /** The hash identifies what it is made from: run, hypothesis, kind, reason code and source event. */
  ghost predicate Identifies(rules: Rules) {
    forall r, h, k, c, s, r', h', k', c', s' :: rules.identify(r, h, k, c, s) == rules.identify(r', h', k', c', s') ==>
      r == r' && h == h' && k == k' && c == c' && s == s'
  }

  function IdsOf(items: seq<Item>): seq<string> {
    Mapped(items, (x: Item) => x.id)
  }

  /** The item's id is the hash of its fields. */
  predicate Made(rules: Rules, s: Subject, x: Item) {
    x.id == rules.identify(s.runId, s.hypothesisId, x.kind, x.reasonCode, x.source)
  }

  predicate SameEvidence(x: Item, y: Item) {
    x.kind == y.kind && x.reasonCode == y.reasonCode && x.source == y.source
  }

  lemma SameIdExactly(rules: Rules, s: Subject, x: Item, y: Item)
    requires Identifies(rules) && Made(rules, s, x) && Made(rules, s, y)
    ensures x.id == y.id <==> SameEvidence(x, y)
  {
  }

  // ---------------------------------------------------------------- lists of ids

  /** No two of the items have the same id. */
  ghost predicate UniqueIds(items: seq<Item>) {
    items == []
    || (UniqueIds(items[..|items| - 1]) && forall y :: y in items[..|items| - 1] ==> y.id != items[|items| - 1].id)
  }

  lemma IdsAppend(items: seq<Item>, x: Item)
    ensures UniqueIds(items + [x]) <==> UniqueIds(items) && forall y :: y in items ==> y.id != x.id
  {
    assert (items + [x])[..|items|] == items;
  }

  lemma {:induction false} UniqueMeansDistinct(items: seq<Item>)
    ensures UniqueIds(items) <==> Distinct(IdsOf(items))
  {
    if items != [] {
      var init, last := items[..|items| - 1], items[|items| - 1];
      UniqueMeansDistinct(init);
      assert items == init + [last] && IdsOf(items) == IdsOf(init) + [last.id];
      DistinctAppends(IdsOf(init), last.id);
      IdInIds(init, last.id);
    }
  }

  lemma IdInIds(items: seq<Item>, id: string)
    ensures id in IdsOf(items) <==> exists y :: y in items && y.id == id
  {
    if id in IdsOf(items) {
      var k :| 0 <= k < |IdsOf(items)| && IdsOf(items)[k] == id;
      assert items[k] in items && items[k].id == id;
    }
    if y :| y in items && y.id == id {
      var k :| 0 <= k < |items| && items[k] == y;
      assert IdsOf(items)[k] == id;
    }
  }

  lemma {:induction false} IdsConcat(a: seq<Item>, b: seq<Item>)
    requires forall x, y :: x in a && y in b ==> x.id != y.id
    ensures UniqueIds(a + b) <==> UniqueIds(a) && UniqueIds(b)
  {
    if b == [] {
      assert a + b == a;
    } else {
      var init, last := b[..|b| - 1], b[|b| - 1];
      assert b == init + [last] && a + b == (a + init) + [last];
      IdsConcat(a, init);
      IdsAppend(a + init, last);
      IdsAppend(init, last);
    }
  }

  /** Sorting neither makes nor hides a repeated id. */
  lemma IdsPermuted(a: seq<Item>, b: seq<Item>)
    requires multiset(a) == multiset(b) && Distinct(IdsOf(a))
    ensures Distinct(IdsOf(b))
  {
    forall i, j | 0 <= i < j < |a| ensures a[i] != a[j] {
      assert IdsOf(a)[i] != IdsOf(a)[j];
    }
    forall i, j | 0 <= i < j < |b| ensures IdsOf(b)[i] != IdsOf(b)[j] {
      assert b[i] in multiset(a) && b[j] in multiset(a);
      var k :| 0 <= k < |a| && a[k] == b[i];
      var l :| 0 <= l < |a| && a[l] == b[j];
      if k == l {
        TwiceCounts(b, i, j);
        DistinctCount(a, b[i]);
      } else {
        assert IdsOf(a)[k] != IdsOf(a)[l];
      }
    }
  }

  // ---------------------------------------------------------------- what can clash

  /** Two requirements met by the same event under the same reason code. */
  predicate MetClash(rules: Rules, s: Subject, accepted: seq<CanonicalEvent>, expected: seq<(string, string)>, i: int, j: int)
    requires 0 <= i < |expected| && 0 <= j < |expected|
  {
    var a, b := ScopedMatch(rules, expected[i].0, accepted, s.entity), ScopedMatch(rules, expected[j].0, accepted, s.entity);
    && a.Some? && b.Some? && a.value.id == b.value.id && rules.observedCode(expected[i].0) == rules.observedCode(expected[j].0)
    && (expected[i].0 == CONFIG_DIFF <==> expected[j].0 == CONFIG_DIFF)
  }

  /** Two unmet requirements with the same reason code. */
  predicate UnmetClash(rules: Rules, unmet: seq<string>, i: int, j: int)
    requires 0 <= i < |unmet| && 0 <= j < |unmet|
  {
    rules.missingCode(unmet[i]) == rules.missingCode(unmet[j])
  }

  /** Two conflict effects with the same reason code that find the same event. */
  predicate EffectClash(rules: Rules, accepted: seq<CanonicalEvent>, effects: seq<ConflictEffect>, i: int, j: int)
    requires 0 <= i < |effects| && 0 <= j < |effects|
  {
    var a, b := EffectSource(rules, effects[i], accepted), EffectSource(rules, effects[j], accepted);
    effects[i].code != "" && effects[i].code == effects[j].code && a.Some? && b.Some? && a.value.id == b.value.id
  }

  // ---------------------------------------------------------------- each part

  predicate MetAs(rules: Rules, s: Subject, accepted: seq<CanonicalEvent>, requirement: string, x: Item) {
    var e := ScopedMatch(rules, requirement, accepted, s.entity);
    e.Some? && x == MakeItem(rules, s, if requirement == CONFIG_DIFF then Correlated else Observed, rules.observedCode(requirement), e)
  }

  lemma MetNext(rules: Rules, s: Subject, accepted: seq<CanonicalEvent>, expected: seq<(string, string)>, m: nat, x: Item)
    requires m < |expected|
    ensures x in MetUpTo(rules, s, accepted, expected, m + 1) <==>
              x in MetUpTo(rules, s, accepted, expected, m) || MetAs(rules, s, accepted, expected[m].0, x)
  {
  }

  lemma {:induction false} MetFrom(rules: Rules, s: Subject, accepted: seq<CanonicalEvent>, expected: seq<(string, string)>, n: nat, x: Item) returns (i: nat)
    requires n <= |expected| && x in MetUpTo(rules, s, accepted, expected, n)
    ensures i < n && MetAs(rules, s, accepted, expected[i].0, x)
  {
    MetNext(rules, s, accepted, expected, n - 1, x);
    if x in MetUpTo(rules, s, accepted, expected, n - 1) {
      i := MetFrom(rules, s, accepted, expected, n - 1, x);
    } else {
      i := n - 1;
    }
  }

  lemma {:induction false} MetIn(rules: Rules, s: Subject, accepted: seq<CanonicalEvent>, expected: seq<(string, string)>, n: nat, i: nat, x: Item)
    requires i < n <= |expected| && MetAs(rules, s, accepted, expected[i].0, x)
    ensures x in MetUpTo(rules, s, accepted, expected, n)
  {
    var m := n - 1;
    if i < m {
      MetIn(rules, s, accepted, expected, m, i, x);
    }
    MetNext(rules, s, accepted, expected, m, x);
  }

  lemma MetMembers(rules: Rules, s: Subject, accepted: seq<CanonicalEvent>, expected: seq<(string, string)>, n: nat, x: Item)
    requires n <= |expected|
    ensures x in MetUpTo(rules, s, accepted, expected, n) <==> exists i :: 0 <= i < n && MetAs(rules, s, accepted, expected[i].0, x)
  {
    if x in MetUpTo(rules, s, accepted, expected, n) {
      var i := MetFrom(rules, s, accepted, expected, n, x);
    }
    forall i | 0 <= i < n && MetAs(rules, s, accepted, expected[i].0, x) ensures x in MetUpTo(rules, s, accepted, expected, n) {
      MetIn(rules, s, accepted, expected, n, i, x);
    }
  }

  ghost predicate NoMetClash(rules: Rules, s: Subject, accepted: seq<CanonicalEvent>, expected: seq<(string, string)>, n: nat)
    requires n <= |expected|
  {
    forall i, j :: 0 <= i < j < n ==> !MetClash(rules, s, accepted, expected, i, j)
  }

  lemma MetClashSplits(rules: Rules, s: Subject, accepted: seq<CanonicalEvent>, expected: seq<(string, string)>, m: nat)
    requires m < |expected|
    ensures NoMetClash(rules, s, accepted, expected, m + 1) <==>
              NoMetClash(rules, s, accepted, expected, m) && forall i :: 0 <= i < m ==> !MetClash(rules, s, accepted, expected, i, m)
  {
  }

  lemma {:induction false} MetDistinctExactly(rules: Rules, s: Subject, accepted: seq<CanonicalEvent>, expected: seq<(string, string)>, n: nat)
    requires Identifies(rules) && n <= |expected|
    ensures UniqueIds(MetUpTo(rules, s, accepted, expected, n)) <==> NoMetClash(rules, s, accepted, expected, n)
  {
    if n > 0 {
      var m := n - 1;
      MetDistinctExactly(rules, s, accepted, expected, m);
      MetClashSplits(rules, s, accepted, expected, m);
      MetOneMore(rules, s, accepted, expected, m);
    }
  }

  lemma MetOneMore(rules: Rules, s: Subject, accepted: seq<CanonicalEvent>, expected: seq<(string, string)>, m: nat)
    requires Identifies(rules) && m < |expected|
    ensures UniqueIds(MetUpTo(rules, s, accepted, expected, m + 1)) <==>
              UniqueIds(MetUpTo(rules, s, accepted, expected, m)) && forall i :: 0 <= i < m ==> !MetClash(rules, s, accepted, expected, i, m)
  {
    var last := expected[m].0;
    var e := ScopedMatch(rules, last, accepted, s.entity);
    if e.Some? {
      var x := MakeItem(rules, s, if last == CONFIG_DIFF then Correlated else Observed, rules.observedCode(last), e);
      IdsAppend(MetUpTo(rules, s, accepted, expected, m), x);
      MetStep(rules, s, accepted, expected, m, x);
    }
  }

  lemma MetStep(rules: Rules, s: Subject, accepted: seq<CanonicalEvent>, expected: seq<(string, string)>, m: nat, x: Item)
    requires Identifies(rules) && m < |expected| && MetAs(rules, s, accepted, expected[m].0, x)
    ensures (forall y :: y in MetUpTo(rules, s, accepted, expected, m) ==> y.id != x.id)
            <==> forall i :: 0 <= i < m ==> !MetClash(rules, s, accepted, expected, i, m)
  {
    var before := MetUpTo(rules, s, accepted, expected, m);
    forall i | 0 <= i < m && MetClash(rules, s, accepted, expected, i, m) ensures exists y :: y in before && y.id == x.id {
      MetSameId(rules, s, accepted, expected, m, i, x);
    }
    forall y | y in before && y.id == x.id ensures exists i :: 0 <= i < m && MetClash(rules, s, accepted, expected, i, m) {
      MetMembers(rules, s, accepted, expected, m, y);
      var i :| 0 <= i < m && MetAs(rules, s, accepted, expected[i].0, y);
      MetSameId(rules, s, accepted, expected, m, i, x);
    }
  }

  lemma MetSameId(rules: Rules, s: Subject, accepted: seq<CanonicalEvent>, expected: seq<(string, string)>, m: nat, i: nat, x: Item)
    requires Identifies(rules) && i < m < |expected| && MetAs(rules, s, accepted, expected[m].0, x)
    ensures MetClash(rules, s, accepted, expected, i, m) <==>
              exists y :: y in MetUpTo(rules, s, accepted, expected, m) && MetAs(rules, s, accepted, expected[i].0, y) && y.id == x.id
  {
    var e := ScopedMatch(rules, expected[i].0, accepted, s.entity);
    if e.Some? {
      var y := MakeItem(rules, s, if expected[i].0 == CONFIG_DIFF then Correlated else Observed, rules.observedCode(expected[i].0), e);
      MetMembers(rules, s, accepted, expected, m, y);
      SameIdExactly(rules, s, x, y);
    }
  }

  predicate ConflictAs(rules: Rules, s: Subject, accepted: seq<CanonicalEvent>, effect: ConflictEffect, x: Item) {
    var e := EffectSource(rules, effect, accepted);
    effect.code != "" && e.Some? && x == MakeItem(rules, s, Conflicting, effect.code, e)
  }

  lemma ConflictNext(rules: Rules, s: Subject, accepted: seq<CanonicalEvent>, effects: seq<ConflictEffect>, m: nat, x: Item)
    requires m < |effects|
    ensures x in ConflictsUpTo(rules, s, accepted, effects, m + 1) <==>
              x in ConflictsUpTo(rules, s, accepted, effects, m) || ConflictAs(rules, s, accepted, effects[m], x)
  {
  }

  lemma {:induction false} ConflictFrom(rules: Rules, s: Subject, accepted: seq<CanonicalEvent>, effects: seq<ConflictEffect>, n: nat, x: Item) returns (i: nat)
    requires n <= |effects| && x in ConflictsUpTo(rules, s, accepted, effects, n)
    ensures i < n && ConflictAs(rules, s, accepted, effects[i], x)
  {
    ConflictNext(rules, s, accepted, effects, n - 1, x);
    if x in ConflictsUpTo(rules, s, accepted, effects, n - 1) {
      i := ConflictFrom(rules, s, accepted, effects, n - 1, x);
    } else {
      i := n - 1;
    }
  }

  lemma {:induction false} ConflictIn(rules: Rules, s: Subject, accepted: seq<CanonicalEvent>, effects: seq<ConflictEffect>, n: nat, i: nat, x: Item)
    requires i < n <= |effects| && ConflictAs(rules, s, accepted, effects[i], x)
    ensures x in ConflictsUpTo(rules, s, accepted, effects, n)
  {
    var m := n - 1;
    if i < m {
      ConflictIn(rules, s, accepted, effects, m, i, x);
    }
    ConflictNext(rules, s, accepted, effects, m, x);
  }

  lemma ConflictMembers(rules: Rules, s: Subject, accepted: seq<CanonicalEvent>, effects: seq<ConflictEffect>, n: nat, x: Item)
    requires n <= |effects|
    ensures x in ConflictsUpTo(rules, s, accepted, effects, n) <==> exists i :: 0 <= i < n && ConflictAs(rules, s, accepted, effects[i], x)
  {
    if x in ConflictsUpTo(rules, s, accepted, effects, n) {
      var i := ConflictFrom(rules, s, accepted, effects, n, x);
    }
    forall i | 0 <= i < n && ConflictAs(rules, s, accepted, effects[i], x) ensures x in ConflictsUpTo(rules, s, accepted, effects, n) {
      ConflictIn(rules, s, accepted, effects, n, i, x);
    }
  }

  ghost predicate NoEffectClash(rules: Rules, accepted: seq<CanonicalEvent>, effects: seq<ConflictEffect>, n: nat)
    requires n <= |effects|
  {
    forall i, j :: 0 <= i < j < n ==> !EffectClash(rules, accepted, effects, i, j)
  }

  lemma EffectClashSplits(rules: Rules, accepted: seq<CanonicalEvent>, effects: seq<ConflictEffect>, m: nat)
    requires m < |effects|
    ensures NoEffectClash(rules, accepted, effects, m + 1) <==>
              NoEffectClash(rules, accepted, effects, m) && forall i :: 0 <= i < m ==> !EffectClash(rules, accepted, effects, i, m)
  {
  }

  lemma {:induction false} ConflictsDistinctExactly(rules: Rules, s: Subject, accepted: seq<CanonicalEvent>, effects: seq<ConflictEffect>, n: nat)
    requires Identifies(rules) && n <= |effects|
    ensures UniqueIds(ConflictsUpTo(rules, s, accepted, effects, n)) <==> NoEffectClash(rules, accepted, effects, n)
  {
    if n > 0 {
      var m := n - 1;
      ConflictsDistinctExactly(rules, s, accepted, effects, m);
      EffectClashSplits(rules, accepted, effects, m);
      ConflictOneMore(rules, s, accepted, effects, m);
    }
  }

  lemma ConflictOneMore(rules: Rules, s: Subject, accepted: seq<CanonicalEvent>, effects: seq<ConflictEffect>, m: nat)
    requires Identifies(rules) && m < |effects|
    ensures UniqueIds(ConflictsUpTo(rules, s, accepted, effects, m + 1)) <==>
              UniqueIds(ConflictsUpTo(rules, s, accepted, effects, m)) && forall i :: 0 <= i < m ==> !EffectClash(rules, accepted, effects, i, m)
  {
    var last := effects[m];
    var e := EffectSource(rules, last, accepted);
    if last.code != "" && e.Some? {
      var x := MakeItem(rules, s, Conflicting, last.code, e);
      IdsAppend(ConflictsUpTo(rules, s, accepted, effects, m), x);
      ConflictStep(rules, s, accepted, effects, m, x);
    }
  }

  lemma ConflictStep(rules: Rules, s: Subject, accepted: seq<CanonicalEvent>, effects: seq<ConflictEffect>, m: nat, x: Item)
    requires Identifies(rules) && m < |effects| && ConflictAs(rules, s, accepted, effects[m], x)
    ensures (forall y :: y in ConflictsUpTo(rules, s, accepted, effects, m) ==> y.id != x.id)
            <==> forall i :: 0 <= i < m ==> !EffectClash(rules, accepted, effects, i, m)
  {
    var before := ConflictsUpTo(rules, s, accepted, effects, m);
    forall i | 0 <= i < m && EffectClash(rules, accepted, effects, i, m) ensures exists y :: y in before && y.id == x.id {
      ConflictSameId(rules, s, accepted, effects, m, i, x);
    }
    forall y | y in before && y.id == x.id ensures exists i :: 0 <= i < m && EffectClash(rules, accepted, effects, i, m) {
      ConflictMembers(rules, s, accepted, effects, m, y);
      var i :| 0 <= i < m && ConflictAs(rules, s, accepted, effects[i], y);
      ConflictSameId(rules, s, accepted, effects, m, i, x);
    }
  }

  lemma ConflictSameId(rules: Rules, s: Subject, accepted: seq<CanonicalEvent>, effects: seq<ConflictEffect>, m: nat, i: nat, x: Item)
    requires Identifies(rules) && i < m < |effects| && ConflictAs(rules, s, accepted, effects[m], x)
    ensures EffectClash(rules, accepted, effects, i, m) <==>
              exists y :: y in ConflictsUpTo(rules, s, accepted, effects, m) && ConflictAs(rules, s, accepted, effects[i], y) && y.id == x.id
  {
    var e := EffectSource(rules, effects[i], accepted);
    if effects[i].code != "" && e.Some? {
      var y := MakeItem(rules, s, Conflicting, effects[i].code, e);
      ConflictMembers(rules, s, accepted, effects, m, y);
      SameIdExactly(rules, s, x, y);
    }
  }

  lemma MissingDistinctExactly(rules: Rules, s: Subject, unmet: seq<string>)
    requires Identifies(rules)
    ensures UniqueIds(MissingItems(rules, s, unmet)) <==> forall i, j :: 0 <= i < j < |unmet| ==> !UnmetClash(rules, unmet, i, j)
  {
    var items := MissingItems(rules, s, unmet);
    UniqueMeansDistinct(items);
    forall i, j | 0 <= i < j < |unmet| ensures IdsOf(items)[i] == IdsOf(items)[j] <==> UnmetClash(rules, unmet, i, j) {
      SameIdExactly(rules, s, items[i], items[j]);
    }
  }

  // ---------------------------------------------------------------- the whole list

  ghost predicate NoClash(rules: Rules, s: Subject, accepted: seq<CanonicalEvent>, entry: EvidenceEntry) {
    var expected, effects := ExpectedEvidence(entry.expected), EffectsOf(entry);
    var unmet := UnmetUpTo(rules, s, accepted, expected, |expected|);
    && NoMetClash(rules, s, accepted, expected, |expected|) && NoEffectClash(rules, accepted, effects, |effects|)
    && (forall i, j :: 0 <= i < j < |unmet| ==> !UnmetClash(rules, unmet, i, j))
  }

  /** The kinds in a list of made items. */
  ghost predicate OfKinds(rules: Rules, s: Subject, items: seq<Item>, kinds: set<Kind>) {
    forall x :: x in items ==> x.kind in kinds && Made(rules, s, x)
  }

  lemma KindsSeparate(rules: Rules, s: Subject, a: seq<Item>, b: seq<Item>, ka: set<Kind>, kb: set<Kind>)
    requires Identifies(rules) && OfKinds(rules, s, a, ka) && OfKinds(rules, s, b, kb) && ka !! kb
    ensures OfKinds(rules, s, a + b, ka + kb)
    ensures UniqueIds(a + b) <==> UniqueIds(a) && UniqueIds(b)
  {
    forall x, y | x in a && y in b ensures x.id != y.id {
      SameIdExactly(rules, s, x, y);
    }
    IdsConcat(a, b);
  }

  /** The association is the only correlated item, if there is one. */
  lemma CorrelatedParts(rules: Rules, s: Subject, accepted: seq<CanonicalEvent>, expected: seq<(string, string)>)
    requires Identifies(rules)
    ensures var met := MetUpTo(rules, s, accepted, expected, |expected|);
            var all := met + Association(rules, s, accepted, met);
            && OfKinds(rules, s, all, {Observed, Correlated}) && (UniqueIds(all) <==> UniqueIds(met))
  {
    var met := MetUpTo(rules, s, accepted, expected, |expected|);
    var more := Association(rules, s, accepted, met);
    forall x | x in met ensures x.kind in {Observed, Correlated} && Made(rules, s, x) {
      MetMembers(rules, s, accepted, expected, |expected|, x);
    }
    if more == [] {
      assert met + more == met;
    } else {
      forall x | x in met ensures x.kind.Observed? {
        var k :| 0 <= k < |met| && met[k] == x;
      }
      KindsSeparate(rules, s, met, more, {Observed}, {Correlated});
    }
  }

  lemma ConflictingParts(rules: Rules, s: Subject, accepted: seq<CanonicalEvent>, effects: seq<ConflictEffect>)
    requires Identifies(rules)
    ensures var conflicts := ConflictsUpTo(rules, s, accepted, effects, |effects|);
            var all := conflicts + Alternative(rules, s, accepted, conflicts);
            && OfKinds(rules, s, all, {Conflicting}) && (UniqueIds(all) <==> UniqueIds(conflicts))
  {
    var conflicts := ConflictsUpTo(rules, s, accepted, effects, |effects|);
    var more := Alternative(rules, s, accepted, conflicts);
    forall x | x in conflicts ensures x.kind.Conflicting? && Made(rules, s, x) {
      ConflictMembers(rules, s, accepted, effects, |effects|, x);
    }
    if more == [] {
      assert conflicts + more == conflicts;
    } else {
      AllOfKind(conflicts, Conflicting);
      NoneOfKind(conflicts, Conflicting);
      assert conflicts == [] && conflicts + more == more;
    }
  }

  /** The collected ids are distinct exactly when no two requirements are met by one event under one
      reason code, no two unmet ones share a reason code, and no two conflict effects of one code find one
      event. */
  lemma IdsDistinctExactly(rules: Rules, s: Subject, accepted: seq<CanonicalEvent>, entry: EvidenceEntry)
    requires Identifies(rules)
    ensures UniqueIds(Collected(rules, s, accepted, entry)) <==> NoClash(rules, s, accepted, entry)
  {
    var expected, effects := ExpectedEvidence(entry.expected), EffectsOf(entry);
    PartsDistinct(rules, s, accepted, expected, effects);
    MetDistinctExactly(rules, s, accepted, expected, |expected|);
    ConflictsDistinctExactly(rules, s, accepted, effects, |effects|);
    MissingDistinctExactly(rules, s, UnmetUpTo(rules, s, accepted, expected, |expected|));
    var met, conflicts := MetUpTo(rules, s, accepted, expected, |expected|), ConflictsUpTo(rules, s, accepted, effects, |effects|);
    Regrouped(met, Association(rules, s, accepted, met), conflicts, Alternative(rules, s, accepted, conflicts), Lacking(rules, s, accepted, entry));
    SortedIds(Sourced(rules, s, accepted, entry) + Lacking(rules, s, accepted, entry));
  }

  lemma Regrouped(a: seq<Item>, b: seq<Item>, c: seq<Item>, d: seq<Item>, e: seq<Item>)
    ensures a + b + c + d + e == (a + b) + (c + d) + e
  {
  }

  lemma PartsDistinct(rules: Rules, s: Subject, accepted: seq<CanonicalEvent>, expected: seq<(string, string)>, effects: seq<ConflictEffect>)
    requires Identifies(rules)
    ensures var met, conflicts := MetUpTo(rules, s, accepted, expected, |expected|), ConflictsUpTo(rules, s, accepted, effects, |effects|);
            var missing := MissingItems(rules, s, UnmetUpTo(rules, s, accepted, expected, |expected|));
            UniqueIds((met + Association(rules, s, accepted, met)) + (conflicts + Alternative(rules, s, accepted, conflicts)) + missing)
            <==> UniqueIds(met) && UniqueIds(conflicts) && UniqueIds(missing)
  {
    var met, conflicts := MetUpTo(rules, s, accepted, expected, |expected|), ConflictsUpTo(rules, s, accepted, effects, |effects|);
    var missing := MissingItems(rules, s, UnmetUpTo(rules, s, accepted, expected, |expected|));
    CorrelatedParts(rules, s, accepted, expected);
    ConflictingParts(rules, s, accepted, effects);
    assert OfKinds(rules, s, missing, {Missing});
    ThreeParts(rules, s, met + Association(rules, s, accepted, met), conflicts + Alternative(rules, s, accepted, conflicts), missing);
  }

  lemma ThreeParts(rules: Rules, s: Subject, a: seq<Item>, b: seq<Item>, c: seq<Item>)
    requires Identifies(rules) && OfKinds(rules, s, a, {Observed, Correlated}) && OfKinds(rules, s, b, {Conflicting}) && OfKinds(rules, s, c, {Missing})
    ensures UniqueIds(a + b + c) <==> UniqueIds(a) && UniqueIds(b) && UniqueIds(c)
  {
    KindsSeparate(rules, s, a, b, {Observed, Correlated}, {Conflicting});
    KindsSeparate(rules, s, a + b, c, {Observed, Correlated} + {Conflicting}, {Missing});
  }

  lemma SortedIds(items: seq<Item>)
    ensures UniqueIds(SortBy(items, ItemLess)) <==> UniqueIds(items)
  {
    UniqueMeansDistinct(items);
    UniqueMeansDistinct(SortBy(items, ItemLess));
    if Distinct(IdsOf(items)) {
      IdsPermuted(items, SortBy(items, ItemLess));
    }
    if Distinct(IdsOf(SortBy(items, ItemLess))) {
      IdsPermuted(SortBy(items, ItemLess), items);
    }
  }

  // ---------------------------------------------------------------- several lists

  /** Every collected item is made from its own fields. */
  lemma CollectedMade(rules: Rules, s: Subject, accepted: seq<CanonicalEvent>, entry: EvidenceEntry, x: Item)
    requires Identifies(rules) && x in Collected(rules, s, accepted, entry)
    ensures Made(rules, s, x)
  {
    CollectedSplits(rules, s, accepted, entry, x);
    if x in Sourced(rules, s, accepted, entry) {
      SourcedMade(rules, s, accepted, entry, x);
    }
  }

  lemma SourcedMade(rules: Rules, s: Subject, accepted: seq<CanonicalEvent>, entry: EvidenceEntry, x: Item)
    requires Identifies(rules) && x in Sourced(rules, s, accepted, entry)
    ensures Made(rules, s, x)
  {
    var expected, effects := ExpectedEvidence(entry.expected), EffectsOf(entry);
    var met, conflicts := MetUpTo(rules, s, accepted, expected, |expected|), ConflictsUpTo(rules, s, accepted, effects, |effects|);
    CorrelatedParts(rules, s, accepted, expected);
    ConflictingParts(rules, s, accepted, effects);
    InSomePart(met, Association(rules, s, accepted, met), conflicts, Alternative(rules, s, accepted, conflicts), x);
  }

  lemma InSomePart(a: seq<Item>, b: seq<Item>, c: seq<Item>, d: seq<Item>, x: Item)
    requires x in a + b + c + d
    ensures x in a + b || x in c + d
  {
    assert a + b + c + d == (a + b) + (c + d);
  }

  /** The first `n` lists share no id. */
  ghost predicate ListsApart(evidence: nat -> seq<Item>, n: nat) {
    forall i, j, x, y :: 0 <= i < j < n && x in evidence(i) && y in evidence(j) ==> x.id != y.id
  }

  lemma JoinedApart(evidence: nat -> seq<Item>, m: nat)
    requires ListsApart(evidence, m + 1)
    ensures forall x, y :: x in Joined(evidence, m) && y in evidence(m) ==> x.id != y.id
  {
    forall x, y | x in Joined(evidence, m) && y in evidence(m) ensures x.id != y.id {
      var i := JoinedFrom(evidence, m, x);
    }
  }

  ghost predicate UniqueAt(evidence: nat -> seq<Item>, i: nat) {
    UniqueIds(evidence(i))
  }

  /** Lists that share no id have distinct ids together exactly when each has. */
  lemma {:induction false} JoinedDistinctExactly(evidence: nat -> seq<Item>, n: nat)
    requires ListsApart(evidence, n)
    ensures UniqueIds(Joined(evidence, n)) <==> forall i :: 0 <= i < n ==> UniqueAt(evidence, i)
  {
    if n > 0 {
      var m := n - 1;
      JoinedDistinctExactly(evidence, m);
      JoinedApart(evidence, m);
      IdsConcat(Joined(evidence, m), evidence(m));
      assert UniqueIds(Joined(evidence, n)) <==> UniqueIds(Joined(evidence, m)) && UniqueAt(evidence, m);
    }
  }
}
