/** Checking a rebase plan against the commits it must cover, pritty's ai.ts `validateRebasePlan`. */
module RebasePlan {
  import opened Text
  import opened Permutations

  datatype PlanStep = PlanStep(hash: Option<string>, action: Option<string>, message: Option<string>, rationale: Option<string>)

  datatype RebaseStep = RebaseStep(hash: string, action: string, message: Option<string>, rationale: Option<string>)

  const REBASE_ACTIONS: seq<string> := ["pick", "reword", "squash", "fixup", "drop"]

  /** `/^[0-9a-f]{4,40}$/` */
  predicate IsAbbreviation(s: string) {
    4 <= |s| <= 40 && AllOf(s, IsHex)
  }

  lemma AbbreviationExactly(s: string)
    ensures IsAbbreviation(s) <==> 4 <= |s| <= 40 && forall i :: 0 <= i < |s| ==> s[i] in "0123456789abcdef"
  {
    HexExactly(s);
  }

  /** `inputHashes.filter((h) => h.startsWith(prefix))` */
  function Matching(hashes: seq<string>, prefix: string): seq<string> {
    if hashes == [] then []
    else
      var front, last := Matching(hashes[..|hashes| - 1], prefix), hashes[|hashes| - 1];
      if prefix <= last then front + [last] else front
  }

  function MatchesOf(s: PlanStep, hashes: seq<string>): seq<string> {
    if s.hash.Some? && IsAbbreviation(s.hash.value) then Matching(hashes, s.hash.value) else []
  }

  // ---- What a valid plan is ----

  /** Position i is the only one the prefix matches. */
  ghost predicate Only(hashes: seq<string>, prefix: string, i: nat) {
    i < |hashes| && prefix <= hashes[i] && forall j :: 0 <= j < |hashes| && prefix <= hashes[j] ==> j == i
  }

  /** The step's hash abbreviates exactly one input, at one position. */
  ghost predicate Abbreviates(s: PlanStep, hashes: seq<string>, i: nat) {
    s.hash.Some? && IsAbbreviation(s.hash.value) && Only(hashes, s.hash.value, i)
  }

  ghost predicate Resolves(s: PlanStep, hashes: seq<string>) {
    exists i: nat :: Abbreviates(s, hashes, i)
  }

  ghost function FullHash(s: PlanStep, hashes: seq<string>): string {
    if Resolves(s, hashes) then var i: nat :| Abbreviates(s, hashes, i); hashes[i] else ""
  }

  ghost function FullHashes(steps: seq<PlanStep>, hashes: seq<string>): seq<string> {
    seq(|steps|, i requires 0 <= i < |steps| => FullHash(steps[i], hashes))
  }

  /** Every commit exactly once, in any order, each step resolvable and with a known action, the first a pick. */
  ghost predicate ValidPlan(steps: seq<PlanStep>, hashes: seq<string>) {
    && |steps| == |hashes| > 0
    && (forall i :: 0 <= i < |steps| ==> WellFormed(steps[i], hashes))
    && multiset(FullHashes(steps, hashes)) == multiset(hashes)
    && steps[0].action == Some("pick")
  }

  ghost predicate WellFormed(s: PlanStep, hashes: seq<string>) {
    Resolves(s, hashes) && s.action.Some? && s.action.value in {"pick", "reword", "squash", "fixup", "drop"}
  }

  ghost predicate Carries(out: RebaseStep, s: PlanStep, hashes: seq<string>) {
    s.action.Some? && out == RebaseStep(FullHash(s, hashes), s.action.value, s.message, s.rationale)
  }

  lemma {:induction false} NoMatch(hashes: seq<string>, prefix: string)
    ensures Matching(hashes, prefix) == [] <==> forall j :: 0 <= j < |hashes| ==> !(prefix <= hashes[j])
  {
    if hashes != [] {
      NoMatch(hashes[..|hashes| - 1], prefix);
      assert forall j :: 0 <= j < |hashes| - 1 ==> hashes[..|hashes| - 1][j] == hashes[j];
    }
  }

  lemma {:induction false} OnlyMatches(hashes: seq<string>, prefix: string, i: nat)
    requires Only(hashes, prefix, i)
    ensures Matching(hashes, prefix) == [hashes[i]]
  {
    var front := hashes[..|hashes| - 1];
    if i == |front| {
      NoMatch(front, prefix);
    } else {
      OnlyMatches(front, prefix, i);
    }
  }

  lemma {:induction false} OneIsOnly(hashes: seq<string>, prefix: string) returns (i: nat)
    requires |Matching(hashes, prefix)| == 1
    ensures Only(hashes, prefix, i)
  {
    var front, last := hashes[..|hashes| - 1], hashes[|hashes| - 1];
    if prefix <= last {
      NoMatch(front, prefix);
      assert forall j :: 0 <= j < |front| ==> hashes[j] == front[j];
      i := |front|;
    } else {
      i := OneIsOnly(front, prefix);
      assert forall j :: 0 <= j < |front| ==> hashes[j] == front[j];
    }
  }

  /** One match is the unique position the specification asks for, and it is the full hash. */
  lemma OneMatch(s: PlanStep, hashes: seq<string>)
    ensures |MatchesOf(s, hashes)| == 1 <==> Resolves(s, hashes)
    ensures |MatchesOf(s, hashes)| == 1 ==> MatchesOf(s, hashes)[0] == FullHash(s, hashes)
  {
    hide IsAbbreviation, Matching;
    if |MatchesOf(s, hashes)| == 1 {
      var i := OneIsOnly(hashes, s.hash.value);
      assert Abbreviates(s, hashes, i);
    }
    if Resolves(s, hashes) {
      var i: nat :| Abbreviates(s, hashes, i) && FullHash(s, hashes) == hashes[i];
      OnlyMatches(hashes, s.hash.value, i);
    }
  }

  /** A full hash that some step resolves to occurs once among the inputs. */
  lemma ResolvedOnce(s: PlanStep, hashes: seq<string>)
    requires Resolves(s, hashes)
    ensures FullHash(s, hashes) in hashes && multiset(hashes)[FullHash(s, hashes)] == 1
  {
    var i: nat :| Abbreviates(s, hashes, i) && hashes[i] == FullHash(s, hashes);
    OnceEach(hashes, i);
  }

  /** Nothing missing and nothing repeated is the same as being a permutation of the inputs. */
  lemma PermutationExactly(steps: seq<PlanStep>, hashes: seq<string>)
    requires forall i :: 0 <= i < |steps| ==> Resolves(steps[i], hashes)
    ensures var full := multiset(FullHashes(steps, hashes));
            full == multiset(hashes) <==> (forall h :: h in hashes ==> h in full) && (forall h :: h in full ==> full[h] <= 1)
  {
    hide Resolves, FullHash;
    var fulls := FullHashes(steps, hashes);
    var full := multiset(fulls);
    assert forall h :: h in hashes <==> h in multiset(hashes);
    forall h | h in full ensures multiset(hashes)[h] == 1 {
      var i :| 0 <= i < |fulls| && fulls[i] == h;
      ResolvedOnce(steps[i], hashes);
    }
    if (forall h :: h in hashes ==> h in full) && (forall h :: h in full ==> full[h] <= 1) {
      forall h ensures full[h] == multiset(hashes)[h] {
        if h in full { assert full[h] == 1; } else { assert h !in hashes; }
      }
    }
  }

  // ---- The validator ----

  method ValidateRebasePlan(steps: seq<PlanStep>, inputHashes: seq<string>) returns (r: Result<seq<RebaseStep>>)
    ensures r.Ok? <==> ValidPlan(steps, inputHashes)
    ensures r.Ok? ==> CarriesAll(r.value, steps, inputHashes)
  {
    hide MatchesOf, FullHash, WellFormed, Carries, Counts;
    if |steps| != |inputHashes| { return Err("wrong number of steps"); }
    var used: map<string, nat> := map[];
    var out: seq<RebaseStep> := [];
    NothingUsed();
    assert FullHashes(steps[..0], inputHashes) == [];
    for i := 0 to |steps|
      invariant CarriesAll(out, steps[..i], inputHashes)
      invariant forall j :: 0 <= j < i ==> WellFormed(steps[j], inputHashes)
      invariant Counts(used, FullHashes(steps[..i], inputHashes))
    {
      var s := steps[i];
      var matches := MatchesOf(s, inputHashes);
      WellFormedExactly(s, inputHashes);
      if |matches| != 1 { return Err("unknown hash"); }
      var full := matches[0];
      UseOneMore(used, FullHashes(steps[..i], inputHashes), full);
      assert FullHashes(steps[..i + 1], inputHashes) == FullHashes(steps[..i], inputHashes) + [full];
      used := used[full := (if full in used then used[full] else 0) + 1];
      if s.action.None? || s.action.value !in REBASE_ACTIONS { return Err("invalid action"); }
      out := out + [RebaseStep(full, s.action.value, s.message, s.rationale)];
    }
    assert steps[..|steps|] == steps;
    UsedExactly(used, steps, inputHashes);
    if (exists h :: h in inputHashes && h !in used) || (exists h :: h in used && used[h] > 1) {
      return Err("every commit exactly once");
    }
    // With no input the source reads the first step of an empty list, and that throws too.
    if |out| == 0 { return Err("no first step"); }
    FirstAction(out[0], steps[0], inputHashes);
    if out[0].action != "pick" { return Err("first step must be pick"); }
    return Ok(out);
  }

  ghost predicate CarriesAll(out: seq<RebaseStep>, steps: seq<PlanStep>, hashes: seq<string>) {
    |out| == |steps| && forall i :: 0 <= i < |steps| ==> Carries(out[i], steps[i], hashes)
  }

  lemma FirstAction(out: RebaseStep, s: PlanStep, hashes: seq<string>)
    requires Carries(out, s, hashes)
    ensures out.action == "pick" <==> s.action == Some("pick")
  {
  }

  lemma NothingUsed()
    ensures Counts(map[], [])
  {
  }

  lemma UseOneMore(used: map<string, nat>, full: seq<string>, h: string)
    requires Counts(used, full)
    ensures Counts(used[h := (if h in used then used[h] else 0) + 1], full + [h])
  {
    assert multiset(full + [h]) == multiset(full) + multiset{h};
  }

  lemma WellFormedExactly(s: PlanStep, hashes: seq<string>)
    ensures WellFormed(s, hashes) <==> |MatchesOf(s, hashes)| == 1 && s.action.Some? && s.action.value in REBASE_ACTIONS
    ensures |MatchesOf(s, hashes)| == 1 ==> MatchesOf(s, hashes)[0] == FullHash(s, hashes)
    ensures WellFormed(s, hashes)
        ==> Carries(RebaseStep(MatchesOf(s, hashes)[0], s.action.value, s.message, s.rationale), s, hashes)
  {
    hide MatchesOf, FullHash, Resolves;
    OneMatch(s, hashes);
  }

  /** The counts settle whether the plan is a permutation. */
  lemma UsedExactly(used: map<string, nat>, steps: seq<PlanStep>, hashes: seq<string>)
    requires Counts(used, FullHashes(steps, hashes))
    requires forall i :: 0 <= i < |steps| ==> WellFormed(steps[i], hashes)
    ensures multiset(FullHashes(steps, hashes)) == multiset(hashes)
       <==> !(exists h :: h in hashes && h !in used) && !(exists h :: h in used && used[h] > 1)
  {
    hide Resolves, FullHash;
    forall i | 0 <= i < |steps| ensures Resolves(steps[i], hashes) { assert WellFormed(steps[i], hashes); }
    PermutationExactly(steps, hashes);
  }

  ghost predicate Counts(used: map<string, nat>, full: seq<string>) {
    && (forall h :: h in used <==> h in multiset(full))
    && (forall h :: h in used ==> used[h] == multiset(full)[h])
  }

  /** An accepted plan names pairwise distinct commits, so it can only be accepted over pairwise distinct inputs. */
  lemma ValidPlansAreInjective(steps: seq<PlanStep>, hashes: seq<string>, i: nat, j: nat)
    requires ValidPlan(steps, hashes) && i < j < |hashes|
    ensures hashes[i] != hashes[j]
    ensures FullHash(steps[i], hashes) != FullHash(steps[j], hashes)
  {
    hide Resolves, FullHash;
    var fulls := FullHashes(steps, hashes);
    forall h | h in multiset(hashes) ensures multiset(hashes)[h] == 1 {
      assert h in multiset(fulls);
      var k :| 0 <= k < |fulls| && fulls[k] == h;
      assert WellFormed(steps[k], hashes);
      ResolvedOnce(steps[k], hashes);
    }
    AtMostOnce(hashes, i, j);
    assert forall h :: h in fulls ==> h in multiset(fulls);
    AtMostOnce(fulls, i, j);
  }
}
