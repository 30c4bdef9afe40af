/**
 * The measure columns of a record, types/schema.ts `UserWeekRepoRecordSchema`, with the merge of
 * `RECORD_MERGE_TAIL_SQL`: counters add, scopes and weekday masks are united, PR sizes are kept as a bag.
 */
module Measures {
  import opened Permutations
  import opened WeekMask

  datatype Category = App | Test | Config | Storybook | Doc

  datatype Intent = Feat | Fix | Refactor | Docs | Tests | Chore | Other

  datatype FileMetrics = FileMetrics(files: nat, added: nat, deleted: nat, insertions: nat, deletions: nat) {
    function Plus(that: FileMetrics): FileMetrics {
      FileMetrics(files + that.files, added + that.added, deleted + that.deleted,
                  insertions + that.insertions, deletions + that.deletions)
    }
  }

  datatype Filetypes = Filetypes(app: FileMetrics, test: FileMetrics, config: FileMetrics, storybook: FileMetrics, doc: FileMetrics) {
    function Plus(that: Filetypes): Filetypes {
      Filetypes(app.Plus(that.app), test.Plus(that.test), config.Plus(that.config),
                storybook.Plus(that.storybook), doc.Plus(that.doc))
    }

    /** `filetype[category]` with `m` added to it. */
    function Add(c: Category, m: FileMetrics): Filetypes {
      match c
      case App => this.(app := app.Plus(m))
      case Test => this.(test := test.Plus(m))
      case Config => this.(config := config.Plus(m))
      case Storybook => this.(storybook := storybook.Plus(m))
      case Doc => this.(doc := doc.Plus(m))
    }
  }

  datatype Intents = Intents(feat: nat, fix: nat, refactor: nat, docs: nat, test: nat, chore: nat, other: nat) {
    function Plus(that: Intents): Intents {
      Intents(feat + that.feat, fix + that.fix, refactor + that.refactor, docs + that.docs,
              test + that.test, chore + that.chore, other + that.other)
    }

    function Bump(i: Intent): Intents {
      match i
      case Feat => this.(feat := feat + 1)
      case Fix => this.(fix := fix + 1)
      case Refactor => this.(refactor := refactor + 1)
      case Docs => this.(docs := docs + 1)
      case Tests => this.(test := test + 1)
      case Chore => this.(chore := chore + 1)
      case Other => this.(other := other + 1)
    }
  }

  /** The columns a scanned commit feeds. */
  datatype Work = Work(commits: nat, intents: Intents, breaking: nat, filetypes: Filetypes) {
    function Plus(that: Work): Work {
      Work(commits + that.commits, intents.Plus(that.intents), breaking + that.breaking, filetypes.Plus(that.filetypes))
    }
  }

  /** The columns the PR-proxy and rework passes feed. */
  datatype Post = Post(prsMerged: nat, prSizes: multiset<nat>, reworkLines: nat, reworkSelfLines: nat) {
    function Plus(that: Post): Post {
      Post(prsMerged + that.prsMerged, prSizes + that.prSizes,
           reworkLines + that.reworkLines, reworkSelfLines + that.reworkSelfLines)
    }
  }

  datatype Measure = Measure(work: Work, post: Post, scopes: set<string>, mask: Mask) {
    function Join(that: Measure): Measure {
      Measure(work.Plus(that.work), post.Plus(that.post), scopes + that.scopes, mask.Or(that.mask))
    }
  }

  const NO_FILES := FileMetrics(0, 0, 0, 0, 0)
  const NO_FILETYPES := Filetypes(NO_FILES, NO_FILES, NO_FILES, NO_FILES, NO_FILES)
  const NO_INTENTS := Intents(0, 0, 0, 0, 0, 0, 0)
  const NO_WORK := Work(0, NO_INTENTS, 0, NO_FILETYPES)
  const NO_SIZES: multiset<nat> := multiset{}
  const NO_POST := Post(0, NO_SIZES, 0, 0)
  const NOTHING := Measure(NO_WORK, NO_POST, {}, NO_DAYS)

  lemma FiletypesAdd(f: Filetypes, g: Filetypes, c: Category, m: FileMetrics)
    ensures f.Plus(g).Add(c, m) == f.Plus(g.Add(c, m))
  {
  }

  lemma BumpIsPlus(a: Intents, i: Intent)
    ensures a.Bump(i) == a.Plus(NO_INTENTS.Bump(i))
  {
  }

  lemma JoinNothing(a: Measure)
    ensures a.Join(NOTHING) == a == NOTHING.Join(a)
  {
  }

  lemma NoPostPlus()
    ensures NO_POST.Plus(NO_POST) == NO_POST
  {
    hide Post.Plus;
    JoinNothing(NOTHING);
  }

  lemma JoinCommutes(a: Measure, b: Measure)
    ensures a.Join(b) == b.Join(a)
  {
    assert a.scopes + b.scopes == b.scopes + a.scopes;
    assert a.post.prSizes + b.post.prSizes == b.post.prSizes + a.post.prSizes;
  }

  lemma WorkAssociates(a: Work, b: Work, c: Work)
    ensures a.Plus(b).Plus(c) == a.Plus(b.Plus(c))
  {
  }

  lemma PostAssociates(a: Post, b: Post, c: Post)
    ensures a.Plus(b).Plus(c) == a.Plus(b.Plus(c))
  {
    assert a.prSizes + b.prSizes + c.prSizes == a.prSizes + (b.prSizes + c.prSizes);
  }

  lemma JoinAssociates(a: Measure, b: Measure, c: Measure)
    ensures a.Join(b).Join(c) == a.Join(b.Join(c))
  {
    WorkAssociates(a.work, b.work, c.work);
    PostAssociates(a.post, b.post, c.post);
    hide Work.Plus, Post.Plus;
    assert a.scopes + b.scopes + c.scopes == a.scopes + (b.scopes + c.scopes);
  }

  /** (a b) c == (a c) b. */
  lemma JoinSwaps(a: Measure, b: Measure, c: Measure)
    ensures a.Join(b).Join(c) == a.Join(c).Join(b)
  {
    JoinAssociates(a, b, c);
    JoinCommutes(b, c);
    JoinAssociates(a, c, b);
  }

  // ---- Sums over lists ----

  /** The join of what each element of a list contributes. */
  ghost function SumOf<T(!new)>(s: seq<T>, part: T -> Measure): Measure {
    if s == [] then NOTHING else SumOf(s[..|s| - 1], part).Join(part(s[|s| - 1]))
  }

  lemma SumOfOne<T(!new)>(x: T, part: T -> Measure)
    ensures SumOf([x], part) == part(x)
  {
    assert [x][..0] == [];
    JoinNothing(part(x));
  }

  lemma {:induction false} SumOfAppend<T(!new)>(a: seq<T>, b: seq<T>, part: T -> Measure)
    ensures SumOf(a + b, part) == SumOf(a, part).Join(SumOf(b, part))
  {
    if b == [] {
      assert a + b == a;
      JoinNothing(SumOf(a, part));
    } else {
      var front, last := b[..|b| - 1], b[|b| - 1];
      assert (a + b)[..|a + b| - 1] == a + front;
      SumOfAppend(a, front, part);
      JoinAssociates(SumOf(a, part), SumOf(front, part), part(last));
    }
  }

  lemma SumOfMiddle<T(!new)>(left: seq<T>, x: T, right: seq<T>, part: T -> Measure)
    ensures SumOf(left + [x] + right, part) == SumOf(left + right, part).Join(part(x))
  {
    hide Measure.Join, SumOf;
    SumOfAppend(left, right, part);
    SumOfAppend(left + [x], right, part);
    SumOfAppend(left, [x], part);
    SumOfOne(x, part);
    JoinSwaps(SumOf(left, part), part(x), SumOf(right, part));
  }

  /** A sum does not depend on order. */
  lemma {:induction false} SumOfPermutes<T(!new)>(a: seq<T>, b: seq<T>, part: T -> Measure)
    requires multiset(a) == multiset(b)
    ensures SumOf(a, part) == SumOf(b, part)
    decreases |a|
  {
    hide Measure.Join;
    if a == [] {
      assert |multiset(b)| == 0;
    } else {
      var i := MatchLast(a, b);
      SumOfPermutes(a[..|a| - 1], b[..i] + b[i + 1..], part);
      SumOfMiddle(b[..i], b[i], b[i + 1..], part);
      assert b == b[..i] + [b[i]] + b[i + 1..];
    }
  }
}
