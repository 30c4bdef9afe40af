/** First-match bucketing of files, pritty's categorizer.ts, and the plan that must name every bucket once, commands/_shared/plan.ts. */
module Categorizer {
  import opened Text

  /** A category and its glob patterns; a category map is a list in iteration order. */
  datatype Category = Category(name: string, patterns: seq<string>)

  type Glob = (string, string) -> bool

  const UNKNOWN_CATEGORY := "unknown"

  predicate Matches(c: Category, file: string, glob: Glob) {
    exists i :: 0 <= i < |c.patterns| && glob(file, c.patterns[i])
  }

  /** The first category with a matching pattern. */
  function CategoryOf(file: string, categories: seq<Category>, glob: Glob): string {
    if categories == [] then UNKNOWN_CATEGORY
    else if Matches(categories[0], file, glob) then categories[0].name
    else CategoryOf(file, categories[1..], glob)
  }

  lemma {:induction false} FirstMatching(file: string, categories: seq<Category>, glob: Glob, i: nat)
    requires i <= |categories| && forall j :: 0 <= j < i ==> !Matches(categories[j], file, glob)
    requires i < |categories| ==> Matches(categories[i], file, glob)
    ensures CategoryOf(file, categories, glob) == if i < |categories| then categories[i].name else UNKNOWN_CATEGORY
    decreases |categories|
  {
    hide Matches;
    if categories != [] && i > 0 {
      assert !Matches(categories[0], file, glob);
      forall j | 0 <= j < i - 1 ensures !Matches(categories[1..][j], file, glob) {
        assert categories[1..][j] == categories[j + 1];
      }
      FirstMatching(file, categories[1..], glob, i - 1);
    }
  }

  /** No pattern of a category before the chosen one fits the file, and one of the chosen does; `unknown` means none fits. */
  lemma FirstMatch(file: string, categories: seq<Category>, glob: Glob, i: nat)
    requires i <= |categories|
    requires forall j, p :: 0 <= j < i && p in categories[j].patterns ==> !glob(file, p)
    requires i < |categories| ==> exists p :: p in categories[i].patterns && glob(file, p)
    ensures CategoryOf(file, categories, glob) == if i < |categories| then categories[i].name else "unknown"
  {
    FirstMatching(file, categories, glob, i);
    hide CategoryOf;
  }

  function NamesOf(categories: seq<Category>): set<string> {
    (set i | 0 <= i < |categories| :: categories[i].name) + {UNKNOWN_CATEGORY}
  }

  lemma {:induction false} CategoryIsNamed(file: string, categories: seq<Category>, glob: Glob)
    ensures CategoryOf(file, categories, glob) in NamesOf(categories)
  {
    hide Matches;
    if categories != [] {
      CategoryIsNamed(file, categories[1..], glob);
      forall n | n in NamesOf(categories[1..]) ensures n in NamesOf(categories) {
        if i :| 0 <= i < |categories[1..]| && categories[1..][i].name == n {
          assert categories[i + 1].name == n;
        }
      }
      assert categories[0].name in NamesOf(categories);
    }
  }

  /** The files of one category, in input order. */
  function Bucket(files: seq<string>, name: string, categories: seq<Category>, glob: Glob): seq<string> {
    if files == [] then []
    else
      var front, last := Bucket(files[..|files| - 1], name, categories, glob), files[|files| - 1];
      if CategoryOf(last, categories, glob) == name then front + [last] else front
  }

  function Grouped(files: seq<string>, categories: seq<Category>, glob: Glob): map<string, seq<string>> {
    map name | name in NamesOf(categories) :: Bucket(files, name, categories, glob)
  }

  method Categorize(files: seq<string>, categories: seq<Category>, glob: Glob) returns (out: map<string, seq<string>>)
    ensures out == Grouped(files, categories, glob)
  {
    hide Matches, CategoryOf, Bucket;
    out := map[];
    for i := 0 to |categories|
      invariant out.Keys == set j | 0 <= j < i :: categories[j].name
      invariant forall name :: name in out ==> out[name] == []
    {
      out := out[categories[i].name := []];
    }
    out := out[UNKNOWN_CATEGORY := []];
    NothingGrouped(categories, glob);
    assert files[..0] == [];
    for n := 0 to |files|
      invariant out == Grouped(files[..n], categories, glob)
    {
      var file := files[n];
      var matched := false;
      ghost var before := out;
      GroupedStep(files, n, categories, glob);
      CategoryIsNamed(file, categories, glob);
      var i := 0;
      while i < |categories| && !matched
        invariant 0 <= i <= |categories|
        invariant !matched ==> out == before && forall j :: 0 <= j < i ==> !Matches(categories[j], file, glob)
        invariant matched ==> out == Filed(before, CategoryOf(file, categories, glob), file)
        decreases |categories| - i, !matched
      {
        if Matches(categories[i], file, glob) {
          FirstMatching(file, categories, glob, i);
          out := out[categories[i].name := out[categories[i].name] + [file]];
          matched := true;
        } else {
          i := i + 1;
        }
      }
      if !matched {
        FirstMatching(file, categories, glob, |categories|);
        out := out[UNKNOWN_CATEGORY := out[UNKNOWN_CATEGORY] + [file]];
      }
    }
    assert files[..|files|] == files;
  }

  lemma NothingGrouped(categories: seq<Category>, glob: Glob)
    ensures Grouped([], categories, glob) == map name | name in NamesOf(categories) :: []
  {
  }

  function Filed(out: map<string, seq<string>>, name: string, file: string): map<string, seq<string>>
    requires name in out
  {
    out[name := out[name] + [file]]
  }

  lemma GroupedStep(files: seq<string>, n: nat, categories: seq<Category>, glob: Glob)
    requires n < |files|
    ensures CategoryOf(files[n], categories, glob) in NamesOf(categories)
    ensures Grouped(files[..n + 1], categories, glob)
         == Filed(Grouped(files[..n], categories, glob), CategoryOf(files[n], categories, glob), files[n])
  {
    hide CategoryOf, NamesOf;
    CategoryIsNamed(files[n], categories, glob);
    assert files[..n + 1][..n] == files[..n];
  }

  /** Each file lands, with all its occurrences, in the bucket of its category and in no other. */
  lemma {:induction false} BucketsPartition(files: seq<string>, name: string, categories: seq<Category>, glob: Glob, f: string)
    ensures multiset(Bucket(files, name, categories, glob))[f]
         == if CategoryOf(f, categories, glob) == name then multiset(files)[f] else 0
  {
    hide CategoryOf;
    if files != [] {
      var front, last := files[..|files| - 1], files[|files| - 1];
      BucketsPartition(front, name, categories, glob, f);
      assert files == front + [last];
      assert multiset(files) == multiset(front) + multiset([last]);
    }
  }

  /** A bucket keeps the order of the input. */
  lemma {:induction false} BucketsInOrder(a: seq<string>, b: seq<string>, name: string, categories: seq<Category>, glob: Glob)
    ensures Bucket(a + b, name, categories, glob) == Bucket(a, name, categories, glob) + Bucket(b, name, categories, glob)
  {
    hide CategoryOf;
    if b == [] {
      assert a + b == a;
    } else {
      assert (a + b)[..|a + b| - 1] == a + b[..|b| - 1];
      BucketsInOrder(a, b[..|b| - 1], name, categories, glob);
    }
  }

  // ---- The commit plan ----

  datatype Step = Step(category: string, files: seq<string>)

  ghost predicate PlanCovers(plan: seq<string>, grouped: map<string, seq<string>>) {
    && (forall i :: 0 <= i < |plan| ==> plan[i] in grouped)
    && (forall i, j :: 0 <= i < j < |plan| ==> plan[i] != plan[j])
    && (forall name :: name in grouped && grouped[name] != [] ==> name in plan)
  }

  /** The steps with files, in the plan's order. */
  function StepsOf(plan: seq<string>, grouped: map<string, seq<string>>): seq<Step>
    requires forall i :: 0 <= i < |plan| ==> plan[i] in grouped
  {
    if plan == [] then []
    else
      var front, last := StepsOf(plan[..|plan| - 1], grouped), plan[|plan| - 1];
      if grouped[last] == [] then front else front + [Step(last, grouped[last])]
  }

  /** `reconcileCommitPlan`: the model's plan names the categories, the categorizer supplies the files. */
  method ReconcileCommitPlan(plan: seq<string>, grouped: map<string, seq<string>>) returns (r: Result<seq<Step>>)
    ensures r.Ok? <==> PlanCovers(plan, grouped)
    ensures r.Ok? ==> r.value == StepsOf(plan, grouped)
  {
    var seen: set<string> := {};
    var out: seq<Step> := [];
    for i := 0 to |plan|
      invariant forall j :: 0 <= j < i ==> plan[j] in grouped
      invariant seen == set j | 0 <= j < i :: plan[j]
      invariant forall j, k :: 0 <= j < k < i ==> plan[j] != plan[k]
      invariant out == StepsOf(plan[..i], grouped)
    {
      assert plan[..i + 1][..i] == plan[..i];
      if plan[i] !in grouped { return Err("category not produced"); }
      if plan[i] in seen { return Err("category listed more than once"); }
      seen := seen + {plan[i]};
      var files := grouped[plan[i]];
      if |files| == 0 { continue; }
      out := out + [Step(plan[i], files)];
    }
    assert plan[..|plan|] == plan;
    var missing := set name | name in grouped && grouped[name] != [] && name !in seen;
    if missing != {} {
      var name :| name in missing;
      return Err("categories omitted");
    }
    assert forall name :: name in grouped && grouped[name] != [] ==> name !in missing;
    return Ok(out);
  }
}
