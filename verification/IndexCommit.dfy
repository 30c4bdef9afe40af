/** One commit per category from the index, pritty's git.ts `commitIndexSubset` and commands/commit.ts. */
module IndexCommit {
  import opened Text
  import opened Categorizer

  /** Path to mode and object name. */
  type Tree = map<string, string>

  /** Whether a pathspec selects a path. */
  type Pathspec = (string, string) -> bool

  function TreeOf(head: Option<Tree>): Tree {
    if head.Some? then head.value else map[]
  }

  predicate Differs(head: Tree, index: Tree, p: string) {
    (p in head) != (p in index) || (p in head && head[p] != index[p])
  }

  /** The staged paths. */
  function Staged(head: Tree, index: Tree): set<string> {
    set p | p in head.Keys + index.Keys && Differs(head, index, p)
  }

  predicate Selects(files: seq<string>, spec: Pathspec, p: string) {
    exists f :: f in files && spec(f, p)
  }

  /** Index content on the selected paths, deletions included, and HEAD elsewhere. */
  function Taken(head: Tree, index: Tree, files: seq<string>, spec: Pathspec): Tree {
    map p | p in head.Keys + index.Keys && p in (if Selects(files, spec, p) then index else head) ::
      if Selects(files, spec, p) then index[p] else head[p]
  }

  /** The subset has something staged. */
  ghost predicate HasStaged(head: Tree, index: Tree, files: seq<string>, spec: Pathspec) {
    exists p :: p in Staged(head, index) && Selects(files, spec, p)
  }

  class Repository {
    var head: Option<Tree>
    var index: Tree

    constructor (head: Option<Tree>, index: Tree)
      ensures this.head == head && this.index == index
    {
      this.head, this.index := head, index;
    }

    /** `hooksAccept` is what git's hooks and signing answer. */
    method CommitIndexSubset(files: seq<string>, spec: Pathspec, hooksAccept: bool) returns (r: Result<()>)
      modifies this`head
      ensures r.Ok? <==> HasStaged(TreeOf(old(head)), index, files, spec) && hooksAccept
      ensures r.Ok? ==> head == Some(Taken(TreeOf(old(head)), index, files, spec))
      ensures r.Err? ==> head == old(head)
    {
      hide Selects;
      var temporary := TreeOf(head);
      var entries := map p | p in index && Selects(files, spec, p) :: index[p];
      temporary := temporary + entries;
      var deleted := set p | p in TreeOf(head) && p !in index && Selects(files, spec, p);
      temporary := temporary - deleted;
      assert temporary == Taken(TreeOf(head), index, files, spec);
      var changed := Staged(TreeOf(head), temporary);
      ChangedIsStaged(TreeOf(head), index, files, spec);
      assert forall p :: p in Staged(TreeOf(head), index) && Selects(files, spec, p) ==> p in changed;
      if changed == {} { return Err("nothing staged"); }
      if !hooksAccept { return Err("git commit failed"); }
      var p :| p in changed;
      head := Some(temporary);
      return Ok(());
    }

    /** The commit loop of `runCommit`; stops at the first step that fails. */
    method CommitSteps(steps: seq<Step>, spec: Pathspec) returns (r: Result<()>)
      modifies this`head
      ensures r.Ok? <==> EachHasStaged(TreeOf(old(head)), index, steps, spec)
      ensures r.Ok? && steps != [] ==> head == Some(AllTaken(TreeOf(old(head)), index, steps, spec))
    {
      hide HasStaged, Taken;
      for i := 0 to |steps|
        invariant EachHasStaged(TreeOf(old(head)), index, steps[..i], spec)
        invariant TreeOf(head) == AllTaken(TreeOf(old(head)), index, steps[..i], spec)
        invariant i > 0 ==> head.Some?
      {
        assert steps[..i + 1][..i] == steps[..i];
        var one := CommitIndexSubset(steps[i].files, spec, true);
        if one.Err? {
          StaysShort(TreeOf(old(head)), index, steps, spec, i + 1);
          return one;
        }
      }
      assert steps[..|steps|] == steps;
      return Ok(());
    }

    /**
     * `runCommit` from the staged paths on: group them, check the plan, commit every group. A run that succeeds
     * ends with HEAD equal to the index exactly when every staged path is selected by some staged path's pathspec.
     */
    method RunCommit(staged: seq<string>, categories: seq<Category>, glob: Glob, plan: seq<string>, spec: Pathspec)
      returns (r: Result<()>)
      requires forall p :: p in staged <==> p in Staged(TreeOf(head), index)
      modifies this`head
      ensures r.Ok? ==> (TreeOf(head) == index <==> AllReached(spec, staged))
      ensures staged != [] ==>
        var grouped := Grouped(staged, categories, glob);
        && (r.Ok? <==> PlanCovers(plan, grouped) && EachHasStaged(TreeOf(old(head)), index, StepsOf(plan, grouped), spec))
        && (!PlanCovers(plan, grouped) ==> head == old(head))
    {
      if |staged| == 0 {
        NothingToReach(TreeOf(head), index, staged, spec);
        return Ok(());
      }
      var grouped := Categorize(staged, categories, glob);
      var steps := ReconcileCommitPlan(plan, grouped);
      if steps.Err? { return Err(steps.error); }
      hide *;
      ghost var was := TreeOf(head);
      StepsCoverExactly(was, index, staged, categories, glob, plan, spec);
      CoveringEndsAtIndex(was, index, steps.value, spec);
      r := CommitSteps(steps.value, spec);
      StepsNotEmpty(was, index, staged, categories, glob, plan);
      if r.Ok? { HeadTree(head); }
    }
  }

  ghost function AllTaken(head: Tree, index: Tree, steps: seq<Step>, spec: Pathspec): Tree {
    if steps == [] then head
    else Taken(AllTaken(head, index, steps[..|steps| - 1], spec), index, steps[|steps| - 1].files, spec)
  }

  /** Each step still finds something staged when its turn comes. */
  ghost predicate EachHasStaged(head: Tree, index: Tree, steps: seq<Step>, spec: Pathspec) {
    steps != [] ==>
      var front := steps[..|steps| - 1];
      EachHasStaged(head, index, front, spec)
      && HasStaged(AllTaken(head, index, front, spec), index, steps[|steps| - 1].files, spec)
  }

  lemma ChangedIsStaged(head: Tree, index: Tree, files: seq<string>, spec: Pathspec)
    ensures Staged(head, Taken(head, index, files, spec)) == set p | p in Staged(head, index) && Selects(files, spec, p)
  {
    hide Selects;
  }

  lemma {:induction false} StaysShort(head: Tree, index: Tree, steps: seq<Step>, spec: Pathspec, i: nat)
    requires i <= |steps| && !EachHasStaged(head, index, steps[..i], spec)
    ensures !EachHasStaged(head, index, steps, spec)
    decreases |steps|
  {
    hide HasStaged;
    if i < |steps| {
      assert steps[..|steps| - 1][..i] == steps[..i];
      StaysShort(head, index, steps[..|steps| - 1], spec, i);
    } else {
      assert steps[..i] == steps;
    }
  }

  lemma NothingStaged(head: Tree, index: Tree)
    requires Staged(head, index) == {}
    ensures head == index
  {
    assert forall p :: p in head.Keys + index.Keys ==> p !in Staged(head, index);
    assert head.Keys == index.Keys;
  }

  lemma HeadTree(head: Option<Tree>)
    ensures head.Some? ==> TreeOf(head) == head.value
  {
  }

  // ---- What a step changes ----

  /** One commit: exactly the selected paths take their staged content; nothing else moves, and nothing else is un-staged. */
  lemma SubsetCommit(head: Tree, index: Tree, files: seq<string>, spec: Pathspec, p: string)
    ensures var after := Taken(head, index, files, spec);
            && (Selects(files, spec, p) <==> exists f :: f in files && spec(f, p))
            && (Selects(files, spec, p) ==> (p in after <==> p in index) && (p in after ==> after[p] == index[p]))
            && (!Selects(files, spec, p) ==> (p in after <==> p in head) && (p in after ==> after[p] == head[p]))
            && (p in Staged(after, index) <==> p in Staged(head, index) && !Selects(files, spec, p))
  {
    assert Selects(files, spec, p) <==> exists f :: f in files && spec(f, p);
    hide Selects;
  }

  ghost predicate SelectedBy(steps: seq<Step>, spec: Pathspec, p: string) {
    exists i :: 0 <= i < |steps| && Selects(steps[i].files, spec, p)
  }

  lemma SelectedByOneMore(steps: seq<Step>, spec: Pathspec, p: string)
    requires steps != []
    ensures SelectedBy(steps, spec, p)
       <==> SelectedBy(steps[..|steps| - 1], spec, p) || Selects(steps[|steps| - 1].files, spec, p)
  {
    hide Selects;
    var front := steps[..|steps| - 1];
    assert forall i :: 0 <= i < |front| ==> front[i] == steps[i];
    if i :| 0 <= i < |front| && Selects(front[i].files, spec, p) {
      assert Selects(steps[i].files, spec, p);
    }
  }

  /** After the steps so far, what is still staged is what none of them selected. */
  lemma {:induction false} StillStaged(head: Tree, index: Tree, steps: seq<Step>, spec: Pathspec, p: string)
    ensures p in Staged(AllTaken(head, index, steps, spec), index) <==> p in Staged(head, index) && !SelectedBy(steps, spec, p)
  {
    hide Staged, Taken, Selects, SelectedBy;
    if steps == [] {
      SelectedByNone(spec, p);
    } else {
      var front := steps[..|steps| - 1];
      StillStaged(head, index, front, spec, p);
      SubsetCommit(AllTaken(head, index, front, spec), index, steps[|steps| - 1].files, spec, p);
      SelectedByOneMore(steps, spec, p);
    }
  }

  lemma SelectedByNone(spec: Pathspec, p: string)
    ensures !SelectedBy([], spec, p)
  {
  }

  ghost predicate Covering(head: Tree, index: Tree, steps: seq<Step>, spec: Pathspec) {
    forall p :: p in Staged(head, index) ==> SelectedBy(steps, spec, p)
  }

  /** Whatever the order, the steps end with HEAD equal to the index exactly when between them they select every staged path. */
  lemma CoveringEndsAtIndex(head: Tree, index: Tree, steps: seq<Step>, spec: Pathspec)
    ensures AllTaken(head, index, steps, spec) == index <==> Covering(head, index, steps, spec)
  {
    hide AllTaken, Staged, SelectedBy;
    var after := AllTaken(head, index, steps, spec);
    forall p ensures p in Staged(after, index) <==> p in Staged(head, index) && !SelectedBy(steps, spec, p) {
      StillStaged(head, index, steps, spec, p);
    }
    StagedIsEmpty(after, index);
    if Covering(head, index, steps, spec) {
      assert Staged(after, index) == {};
    }
  }

  lemma StagedIsEmpty(head: Tree, index: Tree)
    ensures Staged(head, index) == {} <==> head == index
  {
    if Staged(head, index) == {} { NothingStaged(head, index); }
  }

  /** Every step commits exactly when each selects a staged path that no earlier step selects. */
  lemma {:induction false} AllStepsCommit(head: Tree, index: Tree, steps: seq<Step>, spec: Pathspec)
    ensures EachHasStaged(head, index, steps, spec) <==>
      forall i :: 0 <= i < |steps| ==> HasOwn(head, index, steps, spec, i)
  {
    hide HasOwn, AllTaken, HasStaged;
    if steps != [] {
      var front, n := steps[..|steps| - 1], |steps| - 1;
      AllStepsCommit(head, index, front, spec);
      forall i | 0 <= i < n ensures HasOwn(head, index, front, spec, i) <==> HasOwn(head, index, steps, spec, i) {
        OwnInFront(head, index, steps, spec, i);
      }
      OwnIsStaged(head, index, steps, spec);
    }
  }

  ghost predicate HasOwn(head: Tree, index: Tree, steps: seq<Step>, spec: Pathspec, i: nat)
    requires i < |steps|
  {
    exists p :: p in Staged(head, index) && Selects(steps[i].files, spec, p) && !SelectedBy(steps[..i], spec, p)
  }

  lemma OwnInFront(head: Tree, index: Tree, steps: seq<Step>, spec: Pathspec, i: nat)
    requires i < |steps| - 1
    ensures HasOwn(head, index, steps[..|steps| - 1], spec, i) <==> HasOwn(head, index, steps, spec, i)
  {
    assert steps[..|steps| - 1][..i] == steps[..i];
  }

  lemma OwnIsStaged(head: Tree, index: Tree, steps: seq<Step>, spec: Pathspec)
    requires steps != []
    ensures HasOwn(head, index, steps, spec, |steps| - 1) <==>
      HasStaged(AllTaken(head, index, steps[..|steps| - 1], spec), index, steps[|steps| - 1].files, spec)
  {
    hide AllTaken, Staged, SelectedBy, Selects;
    var front, files := steps[..|steps| - 1], steps[|steps| - 1].files;
    forall p ensures p in Staged(AllTaken(head, index, front, spec), index) <==> p in Staged(head, index) && !SelectedBy(front, spec, p) {
      StillStaged(head, index, front, spec, p);
    }
  }

  // ---- The steps of a run ----

  /** A path, taken as a pathspec, selects itself; paths that open with a colon need not. */
  ghost predicate ReflexiveOn(spec: Pathspec, staged: seq<string>) {
    forall p :: p in staged ==> spec(p, p)
  }

  /** No staged path, taken as a pathspec, selects a staged path of another category. */
  ghost predicate SpecsStayApart(spec: Pathspec, staged: seq<string>, categories: seq<Category>, glob: Glob) {
    forall f, p :: f in staged && p in staged && spec(f, p) ==> CategoryOf(f, categories, glob) == CategoryOf(p, categories, glob)
  }

  lemma InBucket(staged: seq<string>, name: string, categories: seq<Category>, glob: Glob, f: string)
    ensures f in Bucket(staged, name, categories, glob) <==> f in staged && CategoryOf(f, categories, glob) == name
  {
    hide CategoryOf, Bucket;
    BucketsPartition(staged, name, categories, glob, f);
    assert f in Bucket(staged, name, categories, glob) <==> multiset(Bucket(staged, name, categories, glob))[f] > 0;
    assert f in staged <==> multiset(staged)[f] > 0;
  }

  lemma {:induction false} StepFound(plan: seq<string>, grouped: map<string, seq<string>>, name: string)
    requires (forall i :: 0 <= i < |plan| ==> plan[i] in grouped) && name in plan && grouped[name] != []
    ensures Step(name, grouped[name]) in StepsOf(plan, grouped)
  {
    if plan[|plan| - 1] != name {
      assert plan == plan[..|plan| - 1] + [plan[|plan| - 1]];
      StepFound(plan[..|plan| - 1], grouped, name);
    }
  }

  ghost predicate IsBucket(s: Step, plan: seq<string>, grouped: map<string, seq<string>>) {
    s.category in plan && s.category in grouped && s.files == grouped[s.category] && s.files != []
  }

  ghost predicate DistinctCategories(steps: seq<Step>) {
    forall i, j :: 0 <= i < j < |steps| ==> steps[i].category != steps[j].category
  }

  lemma {:induction false} StepsAreBuckets(plan: seq<string>, grouped: map<string, seq<string>>)
    requires forall i :: 0 <= i < |plan| ==> plan[i] in grouped
    requires forall i, j :: 0 <= i < j < |plan| ==> plan[i] != plan[j]
    ensures forall s :: s in StepsOf(plan, grouped) ==> IsBucket(s, plan, grouped)
    ensures DistinctCategories(StepsOf(plan, grouped))
  {
    if plan != [] {
      var front, last := plan[..|plan| - 1], plan[|plan| - 1];
      StepsAreBuckets(front, grouped);
      assert plan == front + [last];
      assert forall s :: s in StepsOf(front, grouped) ==> IsBucket(s, front, grouped) && s.category != last;
      var steps := StepsOf(front, grouped);
      forall i | 0 <= i < |steps| ensures steps[i].category != last { assert steps[i] in steps; }
    }
  }

  /** Some staged path, taken as a pathspec, selects each staged path. */
  ghost predicate AllReached(spec: Pathspec, staged: seq<string>) {
    forall p :: p in staged ==> Selects(staged, spec, p)
  }

  lemma NothingToReach(head: Tree, index: Tree, staged: seq<string>, spec: Pathspec)
    requires staged == [] && forall p :: p in staged <==> p in Staged(head, index)
    ensures head == index && AllReached(spec, staged)
  {
    NothingStaged(head, index);
  }

  lemma StepsCoverExactly(head: Tree, index: Tree, staged: seq<string>, categories: seq<Category>, glob: Glob,
                          plan: seq<string>, spec: Pathspec)
    requires forall p :: p in staged <==> p in Staged(head, index)
    requires PlanCovers(plan, Grouped(staged, categories, glob))
    ensures Covering(head, index, StepsOf(plan, Grouped(staged, categories, glob)), spec) <==> AllReached(spec, staged)
  {
    hide Bucket, CategoryOf, StepsOf, Staged, NamesOf, DistinctCategories;
    var grouped := Grouped(staged, categories, glob);
    var steps := StepsOf(plan, grouped);
    StepsAreBuckets(plan, grouped);
    forall p ensures SelectedBy(steps, spec, p) <==> Selects(staged, spec, p) {
      if i :| 0 <= i < |steps| && Selects(steps[i].files, spec, p) {
        assert IsBucket(steps[i], plan, grouped);
        var f :| f in steps[i].files && spec(f, p);
        InBucket(staged, steps[i].category, categories, glob, f);
      }
      if f :| f in staged && spec(f, p) {
        FileHasStep(staged, categories, glob, plan, f);
        var i :| 0 <= i < |steps| && f in steps[i].files;
        assert Selects(steps[i].files, spec, p);
      }
    }
  }

  /** Every staged file is among the files of some step. */
  lemma FileHasStep(staged: seq<string>, categories: seq<Category>, glob: Glob, plan: seq<string>, f: string)
    requires PlanCovers(plan, Grouped(staged, categories, glob)) && f in staged
    ensures var steps := StepsOf(plan, Grouped(staged, categories, glob));
            exists i :: 0 <= i < |steps| && f in steps[i].files
  {
    hide Bucket, CategoryOf, StepsOf, NamesOf;
    var grouped := Grouped(staged, categories, glob);
    var name := CategoryOf(f, categories, glob);
    CategoryIsNamed(f, categories, glob);
    InBucket(staged, name, categories, glob, f);
    assert name in grouped && f in grouped[name];
    StepFound(plan, grouped, name);
    assert Step(name, grouped[name]).files == grouped[name];
  }

  /** The category selects a staged path that the files of no other category select. */
  ghost predicate HasUnshared(head: Tree, index: Tree, grouped: map<string, seq<string>>, spec: Pathspec, name: string)
    requires name in grouped
  {
    exists p :: p in Staged(head, index) && Selects(grouped[name], spec, p)
      && forall other :: other in grouped && other != name ==> !Selects(grouped[other], spec, p)
  }

  /** The plan with one category moved to its end. */
  function MovedLast(plan: seq<string>, name: string): seq<string> {
    Without(plan, name) + [name]
  }

  function Without(plan: seq<string>, name: string): seq<string> {
    if plan == [] then []
    else
      var front := Without(plan[..|plan| - 1], name);
      if plan[|plan| - 1] == name then front else front + [plan[|plan| - 1]]
  }

  lemma {:induction false} WithoutKeeps(plan: seq<string>, name: string)
    ensures forall c :: c in Without(plan, name) <==> c in plan && c != name
    ensures NoRepeats(plan) ==> NoRepeats(Without(plan, name))
  {
    if plan != [] {
      var front, last := plan[..|plan| - 1], plan[|plan| - 1];
      WithoutKeeps(front, name);
      assert plan == front + [last];
      var rest := Without(front, name);
      if NoRepeats(plan) {
        forall i | 0 <= i < |front| ensures front[i] != last { assert plan[i] != plan[|front|]; }
        forall i | 0 <= i < |rest| ensures rest[i] != last { assert rest[i] in rest && rest[i] in front; }
        assert NoRepeats(front);
      }
    }
  }

  ghost predicate NoRepeats(plan: seq<string>) {
    forall i, j :: 0 <= i < j < |plan| ==> plan[i] != plan[j]
  }

  lemma MovedCovers(plan: seq<string>, grouped: map<string, seq<string>>, name: string)
    requires PlanCovers(plan, grouped) && name in grouped
    ensures PlanCovers(MovedLast(plan, name), grouped)
    ensures Without(plan, name) == MovedLast(plan, name)[..|MovedLast(plan, name)| - 1]
    ensures forall i :: 0 <= i < |Without(plan, name)| ==> Without(plan, name)[i] in grouped
  {
    WithoutKeeps(plan, name);
    var rest := Without(plan, name);
    forall i | 0 <= i < |rest| ensures rest[i] in grouped && rest[i] != name { assert rest[i] in rest; }
    assert forall c :: c in plan ==> c in grouped;
  }

  /** An order of the categories in which every step finds something staged. */
  ghost predicate Commits(head: Tree, index: Tree, grouped: map<string, seq<string>>, order: seq<string>, spec: Pathspec)
    requires PlanCovers(order, grouped)
  {
    EachHasStaged(head, index, StepsOf(order, grouped), spec)
  }

  /**
   * Every order of the categories commits each of them exactly when each category with files selects a staged
   * path that no other category's files select.
   */
  lemma EveryOrderCommitsExactly(head: Tree, index: Tree, grouped: map<string, seq<string>>, plan: seq<string>, spec: Pathspec)
    requires PlanCovers(plan, grouped)
    ensures (forall order :: PlanCovers(order, grouped) ==> Commits(head, index, grouped, order, spec))
       <==> forall name :: name in grouped && grouped[name] != [] ==> HasUnshared(head, index, grouped, spec, name)
  {
    hide Commits, HasUnshared, PlanCovers;
    if forall name :: name in grouped && grouped[name] != [] ==> HasUnshared(head, index, grouped, spec, name) {
      forall order | PlanCovers(order, grouped) ensures Commits(head, index, grouped, order, spec) {
        UnsharedCommits(head, index, grouped, order, spec);
      }
    }
    if forall order :: PlanCovers(order, grouped) ==> Commits(head, index, grouped, order, spec) {
      forall name | name in grouped && grouped[name] != [] ensures HasUnshared(head, index, grouped, spec, name) {
        MovedCovers(plan, grouped, name);
        LastNeedsUnshared(head, index, grouped, plan, spec, name);
      }
    }
  }

  lemma UnsharedCommits(head: Tree, index: Tree, grouped: map<string, seq<string>>, plan: seq<string>, spec: Pathspec)
    requires PlanCovers(plan, grouped)
    requires forall name :: name in grouped && grouped[name] != [] ==> HasUnshared(head, index, grouped, spec, name)
    ensures Commits(head, index, grouped, plan, spec)
  {
    hide StepsOf, Staged, Selects, EachHasStaged;
    var steps := StepsOf(plan, grouped);
    StepsAreBuckets(plan, grouped);
    forall i | 0 <= i < |steps| ensures HasOwn(head, index, steps, spec, i) {
      assert IsBucket(steps[i], plan, grouped) && HasUnshared(head, index, grouped, spec, steps[i].category);
      var p :| p in Staged(head, index) && Selects(grouped[steps[i].category], spec, p)
        && forall other :: other in grouped && other != steps[i].category ==> !Selects(grouped[other], spec, p);
      forall j | 0 <= j < i ensures !Selects(steps[..i][j].files, spec, p) {
        assert IsBucket(steps[j], plan, grouped) && steps[j].category != steps[i].category;
      }
    }
    AllStepsCommit(head, index, steps, spec);
  }

  lemma LastNeedsUnshared(head: Tree, index: Tree, grouped: map<string, seq<string>>, plan: seq<string>, spec: Pathspec, name: string)
    requires PlanCovers(plan, grouped) && name in grouped && grouped[name] != []
    requires PlanCovers(MovedLast(plan, name), grouped) && Commits(head, index, grouped, MovedLast(plan, name), spec)
    ensures HasUnshared(head, index, grouped, spec, name)
  {
    MovedCovers(plan, grouped, name);
    WithoutKeeps(plan, name);
    var rest := Without(plan, name);
    var before, steps := StepsOf(rest, grouped), StepsOf(MovedLast(plan, name), grouped);
    assert steps == before + [Step(name, grouped[name])];
    hide StepsOf, Staged, Selects, EachHasStaged, MovedLast, Without;
    AllStepsCommit(head, index, steps, spec);
    assert HasOwn(head, index, steps, spec, |before|);
    assert steps[..|before|] == before;
    var p :| p in Staged(head, index) && Selects(grouped[name], spec, p) && !SelectedBy(before, spec, p);
    forall other | other in grouped && other != name ensures !Selects(grouped[other], spec, p) {
      if grouped[other] == [] {
        NoFilesSelect(spec, p);
      } else {
        StepFound(rest, grouped, other);
        var i :| 0 <= i < |before| && before[i] == Step(other, grouped[other]);
      }
    }
  }

  lemma NoFilesSelect(spec: Pathspec, p: string)
    ensures !Selects([], spec, p)
  {
  }

  /** Pathspecs that stay within their category: every step of a covering plan, in any order, has its own staged path. */
  lemma ApartStepsSucceed(head: Tree, index: Tree, staged: seq<string>, categories: seq<Category>, glob: Glob,
                          plan: seq<string>, spec: Pathspec)
    requires forall p :: p in staged <==> p in Staged(head, index)
    requires ReflexiveOn(spec, staged) && PlanCovers(plan, Grouped(staged, categories, glob))
    requires SpecsStayApart(spec, staged, categories, glob)
    ensures EachHasStaged(head, index, StepsOf(plan, Grouped(staged, categories, glob)), spec)
  {
    hide Bucket, CategoryOf, StepsOf, Staged, NamesOf, EachHasStaged;
    var grouped := Grouped(staged, categories, glob);
    var steps := StepsOf(plan, grouped);
    StepsAreBuckets(plan, grouped);
    forall i | 0 <= i < |steps| ensures HasOwn(head, index, steps, spec, i) {
      assert IsBucket(steps[i], plan, grouped);
      var p := steps[i].files[0];
      InBucket(staged, steps[i].category, categories, glob, p);
      assert Selects(steps[i].files, spec, p);
      assert p in staged && CategoryOf(p, categories, glob) == steps[i].category;
      forall j | 0 <= j < i ensures !Selects(steps[..i][j].files, spec, p) {
        assert steps[j].category != steps[i].category;
        forall f | f in steps[j].files ensures !spec(f, p) {
          assert IsBucket(steps[j], plan, grouped);
          InBucket(staged, steps[j].category, categories, glob, f);
          assert CategoryOf(f, categories, glob) == steps[j].category;
        }
      }
    }
    AllStepsCommit(head, index, steps, spec);
  }

  lemma StepsNotEmpty(head: Tree, index: Tree, staged: seq<string>, categories: seq<Category>, glob: Glob, plan: seq<string>)
    requires staged != [] && PlanCovers(plan, Grouped(staged, categories, glob))
    ensures StepsOf(plan, Grouped(staged, categories, glob)) != []
  {
    hide Bucket, CategoryOf, StepsOf, NamesOf;
    var grouped := Grouped(staged, categories, glob);
    var name := CategoryOf(staged[0], categories, glob);
    CategoryIsNamed(staged[0], categories, glob);
    InBucket(staged, name, categories, glob, staged[0]);
    StepFound(plan, grouped, name);
  }

  /**
   * "Any order" needs names that are not pathspecs for each other: with a staged file whose name is a wildcard
   * selecting a file of another category, committing the wildcard first commits both and leaves the other
   * step nothing, while the opposite order commits each.
   */
  lemma WildcardNameBreaksAnOrder(wild: string, plain: string, content: string, spec: Pathspec)
    requires spec(wild, wild) && spec(plain, plain) && spec(wild, plain) && !spec(plain, wild)
    ensures var index := map[wild := content, plain := content];
            var first, second := Step("app", [wild]), Step("docs", [plain]);
            && EachHasStaged(map[], index, [second, first], spec)
            && !EachHasStaged(map[], index, [first, second], spec)
  {
    var index := map[wild := content, plain := content];
    var first, second := Step("app", [wild]), Step("docs", [plain]);
    AllStepsCommit(map[], index, [second, first], spec);
    AllStepsCommit(map[], index, [first, second], spec);
    hide EachHasStaged;
    assert wild in first.files && plain in second.files;
    assert Selects(second.files, spec, plain) && !Selects(second.files, spec, wild);
    assert Selects(first.files, spec, wild) && Selects(first.files, spec, plain);
    hide Selects;
    assert [second, first][..0] == [] && [second, first][..1] == [second];
    assert [first, second][..1] == [first] && [first][0] == first;
    assert plain in Staged(map[], index) && wild in Staged(map[], index);
    assert SelectedBy([first], spec, plain) && SelectedBy([first], spec, wild);
    assert HasOwn(map[], index, [second, first], spec, 0);
    assert !SelectedBy([second], spec, wild);
    assert HasOwn(map[], index, [second, first], spec, 1);
    assert !HasOwn(map[], index, [first, second], spec, 1);
  }
}
