/** TenantIdentificationService: which configured tenant issued a document, decided by
    summing the weights of the tenant's identifier patterns found in its text. */
module TenantIdentification {
  import opened Wrappers
  import opened JavaText
  import opened Regex
  import opened Entities
  import opened TenantConfig

  // ─── scoring one tenant ──────────────────────────────────────────────────

  /** The identifier's pattern compiles case-insensitively and occurs in the text. */
  predicate Matches(o: Oracle, text: string, id: Identifier) {
    var p := Compile(o, id.pattern, {CaseInsensitive});
    p.Some? && Finds(o, p.value, text)
  }

  /** What one identifier adds to the total: its score when it matches, nothing
      otherwise (a pattern that does not compile is logged and skipped). */
  function Weight(o: Oracle, text: string, id: Identifier): int {
    if Matches(o, text, id) then id.score else 0
  }

  function Weights(o: Oracle, text: string, ids: seq<Identifier>): (ws: seq<int>)
    ensures |ws| == |ids|
    ensures forall i :: 0 <= i < |ids| ==> ws[i] == Weight(o, text, ids[i])
  {
    seq(|ids|, i requires 0 <= i < |ids| => Weight(o, text, ids[i]))
  }

  function Sum(xs: seq<int>): int
    decreases |xs|
  {
    if xs == [] then 0 else Sum(xs[..|xs| - 1]) + xs[|xs| - 1]
  }

  lemma {:induction false} SumConcat(a: seq<int>, b: seq<int>)
    ensures Sum(a + b) == Sum(a) + Sum(b)
    decreases |b|
  {
    if b == [] {
      assert a + b == a;
    } else {
      var n := |b| - 1;
      assert a + b == (a + b[..n]) + [b[n]];
      assert (a + b)[..|a + b| - 1] == a + b[..n];
      SumConcat(a, b[..n]);
    }
  }

  lemma {:induction false} SumOfZeros(xs: seq<int>)
    requires forall i :: 0 <= i < |xs| ==> xs[i] == 0
    ensures Sum(xs) == 0
    decreases |xs|
  {
    if xs != [] {
      SumOfZeros(xs[..|xs| - 1]);
    }
  }

  /** scoreTenant: the `int` sum of the weights of the tenant's identifiers. */
  function TenantScore(o: Oracle, text: string, t: Tenant): Int32 {
    Wrap32(Sum(Weights(o, text, t.identifiers)))
  }

  /** scoreTenant's loop: `totalScore += identifier.getScore()` for each identifier
      found, with Java's wrapping `int` addition. */
  method ScoreTenant(o: Oracle, text: string, tenant: Tenant) returns (total: Int32)
    ensures total == TenantScore(o, text, tenant)
  {
    var ids := tenant.identifiers;
    ghost var ws := Weights(o, text, ids);
    total := 0;
    var i := 0;
    while i < |ids|
      invariant 0 <= i <= |ids|
      invariant total == Wrap32(Sum(ws[..i]))
    {
      assert ws[..i + 1][..i] == ws[..i];
      Wrap32Add(Sum(ws[..i]), ws[i]);
      var p := Compile(o, ids[i].pattern, {CaseInsensitive});
      if p.Some? && Finds(o, p.value, text) {
        total := Wrap32(total + ids[i].score);
      }
      i := i + 1;
    }
    assert ws[..i] == ws;
  }

  /** A tenant none of whose patterns is found in the text scores 0. */
  lemma NoMatchScoresZero(o: Oracle, text: string, t: Tenant)
    requires forall id :: id in t.identifiers ==> !Matches(o, text, id)
    ensures TenantScore(o, text, t) == 0
  {
    SumOfZeros(Weights(o, text, t.identifiers));
  }

  /** An identifier whose pattern does not compile neither adds to the score nor stops
      the identifiers after it from counting: the score is that of the list without it. */
  lemma BrokenPatternIsSkipped(o: Oracle, text: string, before: seq<Identifier>, bad: Identifier, after: seq<Identifier>)
    requires !o.compiles(bad.pattern)
    ensures Sum(Weights(o, text, before + [bad] + after)) == Sum(Weights(o, text, before + after))
  {
    var ws := Weights(o, text, before + [bad] + after);
    assert ws == Weights(o, text, before) + [0] + Weights(o, text, after);
    assert Weights(o, text, before + after) == Weights(o, text, before) + Weights(o, text, after);
    SumConcat(Weights(o, text, before) + [0], Weights(o, text, after));
    SumConcat(Weights(o, text, before), [0]);
    SumConcat(Weights(o, text, before), Weights(o, text, after));
  }

  // ─── choosing the best tenant ────────────────────────────────────────────

  /** The loop of identifyTenant over a list of scores: the index of the current best
      match and the best score so far, starting from no match and score 0 and replacing
      the best only on a strictly greater score. */
  function Best(scores: seq<int>): (r: (Option<nat>, int))
    ensures r.0.None? <==> forall i :: 0 <= i < |scores| ==> scores[i] <= 0
    ensures r.0.None? ==> r.1 == 0
    ensures r.0.Some? ==> var k := r.0.value;
      && k < |scores|
      && r.1 == scores[k] > 0
      && (forall i :: 0 <= i < |scores| ==> scores[i] <= scores[k])
      && (forall i :: 0 <= i < k ==> scores[i] < scores[k])
    decreases |scores|
  {
    if scores == [] then (None, 0)
    else
      var n := |scores| - 1;
      var prev := Best(scores[..n]);
      assert forall i :: 0 <= i < n ==> scores[..n][i] == scores[i];
      if scores[n] > prev.1 then (Some(n), scores[n]) else prev
  }

  function Scores(o: Oracle, text: string, tenants: seq<Tenant>): (s: seq<int>)
    ensures |s| == |tenants|
    ensures forall i :: 0 <= i < |tenants| ==> s[i] == TenantScore(o, text, tenants[i])
  {
    seq(|tenants|, i requires 0 <= i < |tenants| => TenantScore(o, text, tenants[i]) as int)
  }

  /** The tenant identifyTenant returns for a given list of tenants. */
  function Identify(o: Oracle, text: string, tenants: seq<Tenant>): Option<Tenant> {
    match Best(Scores(o, text, tenants)).0
    case None => None
    case Some(k) => Some(tenants[k])
  }

  /** No tenant is identified exactly when every tenant scores at most 0. */
  lemma NoTenantIffNoPositiveScore(o: Oracle, text: string, tenants: seq<Tenant>)
    ensures Identify(o, text, tenants).None? <==> forall i :: 0 <= i < |tenants| ==> TenantScore(o, text, tenants[i]) <= 0
  {
  }

  /** The identified tenant scores above 0, at least as much as every tenant, and
      strictly more than every tenant before it: ties go to the first in list order. */
  lemma IdentifiedTenantIsFirstBest(o: Oracle, text: string, tenants: seq<Tenant>)
    requires Identify(o, text, tenants).Some?
    ensures exists k ::
              && 0 <= k < |tenants| && tenants[k] == Identify(o, text, tenants).value
              && TenantScore(o, text, tenants[k]) > 0
              && (forall i :: 0 <= i < |tenants| ==> TenantScore(o, text, tenants[i]) <= TenantScore(o, text, tenants[k]))
              && (forall i :: 0 <= i < k ==> TenantScore(o, text, tenants[i]) < TenantScore(o, text, tenants[k]))
  {
    var scores := Scores(o, text, tenants);
    var k := Best(scores).0.value;
    assert tenants[k] == Identify(o, text, tenants).value;
  }

  /** identifyTenant: scores every active tenant in the order the store returns them
      and keeps the first with the highest positive score. */
  method IdentifyTenant(o: Oracle, store: Store, pdfText: string) returns (bestMatch: Option<Tenant>)
    ensures bestMatch == Identify(o, pdfText, GetAllActiveTenants(store.tenants))
  {
    var tenants := GetAllActiveTenants(store.tenants);
    ghost var scores: seq<int> := [];
    var bestScore := 0;
    bestMatch := None;
    ghost var bestIndex: Option<nat> := None;
    for i := 0 to |tenants|
      invariant |scores| == i
      invariant forall j :: 0 <= j < i ==> scores[j] == TenantScore(o, pdfText, tenants[j])
      invariant Best(scores) == (bestIndex, bestScore)
      invariant bestIndex.None? ==> bestMatch.None?
      invariant bestIndex.Some? ==> bestIndex.value < i && bestMatch == Some(tenants[bestIndex.value])
    {
      var score := ScoreTenant(o, pdfText, tenants[i]);
      assert (scores + [score])[..i] == scores;
      scores := scores + [score];
      if score > bestScore {
        bestScore := score;
        bestMatch := Some(tenants[i]);
        bestIndex := Some(i);
      }
    }
    assert scores == Scores(o, pdfText, tenants);
  }
}
