/** The author registry, store/author-registry.ts, and its table in store/sqlite-store.ts. */
module AuthorRegistry {
  import opened Text
  import opened MapSums
  import opened Commits
  import opened Collector

  datatype DiscoveredAuthor = DiscoveredAuthor(
    email: string, name: string, identifier: Option<string>, org: Option<string>, team: Option<string>,
    firstSeen: string, lastSeen: string, reposSeenIn: set<string>, commitCount: nat,
    commitsByRepo: Option<map<string, nat>>)

  type Registry = map<string, DiscoveredAuthor>

  function Shares(a: DiscoveredAuthor): map<string, nat> {
    if a.commitsByRepo.Some? then a.commitsByRepo.value else map[]
  }

  /** The commits an author is credited with in one repo. */
  function Share(a: DiscoveredAuthor, repo: string): nat {
    if repo in Shares(a) then Shares(a)[repo] else 0
  }

  function Or<T>(a: Option<T>, b: Option<T>): Option<T> {
    if a.Some? then a else b
  }

  function NewAuthor(rules: Rules, repo: string, d: RawAuthor): DiscoveredAuthor {
    DiscoveredAuthor(rules.lower(d.email), d.name, rules.identifier(d.name), None, None,
                     d.lastDate, d.lastDate, {repo}, d.commitCount, Some(map[repo := d.commitCount]))
  }

  function SeenAgain(a: DiscoveredAuthor, rules: Rules, repo: string, d: RawAuthor): DiscoveredAuthor {
    a.(name := d.name,
       identifier := Or(rules.identifier(d.name), a.identifier),
       lastSeen := if Less(a.lastSeen, d.lastDate) then d.lastDate else a.lastSeen,
       reposSeenIn := a.reposSeenIn + {repo},
       commitCount := a.commitCount + d.commitCount,
       commitsByRepo := Some(Shares(a)[repo := Share(a, repo) + d.commitCount]))
  }

  function MergeOne(reg: Registry, rules: Rules, repo: string, d: RawAuthor): Registry {
    var key := rules.lower(d.email);
    reg[key := if key in reg then SeenAgain(reg[key], rules, repo, d) else NewAuthor(rules, repo, d)]
  }

  /** The registry after every author of a scan has been merged. */
  function Merged(reg: Registry, rules: Rules, repo: string, raw: map<string, RawAuthor>): Registry {
    map k | k in reg.Keys + raw.Keys ::
      if k !in raw then reg[k]
      else if k in reg then SeenAgain(reg[k], rules, repo, raw[k])
      else NewAuthor(rules, repo, raw[k])
  }

  ghost predicate KeyedByEmail(rules: Rules, raw: map<string, RawAuthor>) {
    forall k :: k in raw ==> rules.lower(raw[k].email) == k
  }

  /** `mergeDiscoveredAuthors` over the discovered authors of one repo. */
  method MergeDiscoveredAuthors(reg: Registry, rules: Rules, repo: string, raw: map<string, RawAuthor>) returns (merged: Registry)
    requires KeyedByEmail(rules, raw)
    ensures merged == Merged(reg, rules, repo, raw)
  {
    merged := reg;
    var rest := raw.Keys;
    NothingMerged(reg, rules, repo, raw);
    while rest != {}
      invariant rest <= raw.Keys
      invariant merged == Merged(reg, rules, repo, raw - rest)
      decreases |rest|
    {
      hide Merged, MergeOne;
      var k :| k in rest;
      merged := MergeAuthor(merged, rules, repo, raw[k]);
      MergedStep(reg, rules, repo, raw, rest, k);
      rest := rest - {k};
    }
    assert raw - rest == raw;
  }

  lemma NothingMerged(reg: Registry, rules: Rules, repo: string, raw: map<string, RawAuthor>)
    ensures Merged(reg, rules, repo, raw - raw.Keys) == reg
  {
  }

  method MergeAuthor(reg: Registry, rules: Rules, repo: string, d: RawAuthor) returns (authors: Registry)
    ensures authors == MergeOne(reg, rules, repo, d)
  {
    var key := rules.lower(d.email);
    var identifier := rules.identifier(d.name);
    if key in reg {
      var existing := reg[key];
      var commitsByRepo := if existing.commitsByRepo.Some? then existing.commitsByRepo.value else map[];
      commitsByRepo := commitsByRepo[repo := (if repo in commitsByRepo then commitsByRepo[repo] else 0) + d.commitCount];
      return reg[key := existing.(
        name := d.name,
        identifier := if identifier.Some? then identifier else existing.identifier,
        lastSeen := if Less(existing.lastSeen, d.lastDate) then d.lastDate else existing.lastSeen,
        reposSeenIn := existing.reposSeenIn + {repo},
        commitCount := existing.commitCount + d.commitCount,
        commitsByRepo := Some(commitsByRepo))];
    }
    return reg[key := DiscoveredAuthor(key, d.name, identifier, None, None, d.lastDate, d.lastDate,
                                       {repo}, d.commitCount, Some(map[repo := d.commitCount]))];
  }

  lemma MergedStep(reg: Registry, rules: Rules, repo: string, raw: map<string, RawAuthor>, rest: set<string>, k: string)
    requires KeyedByEmail(rules, raw) && k in rest && rest <= raw.Keys
    ensures Merged(reg, rules, repo, raw - (rest - {k})) == MergeOne(Merged(reg, rules, repo, raw - rest), rules, repo, raw[k])
  {
    hide SeenAgain, NewAuthor;
  }

  /** Drop one repo's share from an author, never below zero. */
  function WithoutShare(a: DiscoveredAuthor, repo: string): DiscoveredAuthor {
    if repo !in Shares(a) then a
    else
      var share := Shares(a)[repo];
      a.(commitCount := if a.commitCount < share then 0 else a.commitCount - share,
         commitsByRepo := Some(Shares(a) - {repo}))
  }

  function Subtracted(reg: Registry, repo: string): Registry {
    map k | k in reg :: WithoutShare(reg[k], repo)
  }

  /** `subtractRepoFromRegistry`. */
  method SubtractRepoFromRegistry(reg: Registry, repo: string) returns (authors: Registry)
    ensures authors == Subtracted(reg, repo)
  {
    authors := reg;
    var rest := reg.Keys;
    while rest != {}
      invariant rest <= reg.Keys && authors.Keys == reg.Keys
      invariant forall k :: k in reg ==> authors[k] == if k in rest then reg[k] else WithoutShare(reg[k], repo)
      decreases |rest|
    {
      var key :| key in rest;
      rest := rest - {key};
      var author := reg[key];
      if author.commitsByRepo.Some? && repo in author.commitsByRepo.value {
        var share := author.commitsByRepo.value[repo];
        authors := authors[key := author.(
          commitCount := if author.commitCount < share then 0 else author.commitCount - share,
          commitsByRepo := Some(author.commitsByRepo.value - {repo}))];
      }
    }
  }

  // ---- Saving ----

  /** `ON CONFLICT (email) DO UPDATE SET` of `saveAuthorRegistrySQL`. */
  function SaveOver(stored: DiscoveredAuthor, excluded: DiscoveredAuthor): DiscoveredAuthor {
    excluded.(
      email := stored.email,
      identifier := Or(excluded.identifier, stored.identifier),
      firstSeen := if Less(excluded.firstSeen, stored.firstSeen) then excluded.firstSeen else stored.firstSeen,
      lastSeen := if Less(stored.lastSeen, excluded.lastSeen) then excluded.lastSeen else stored.lastSeen)
  }

  function Saved(stored: Registry, reg: Registry): Registry {
    map k | k in stored.Keys + reg.Keys ::
      if k !in reg then stored[k] else if k in stored then SaveOver(stored[k], reg[k]) else reg[k]
  }

  function SaveOne(stored: Registry, email: string, a: DiscoveredAuthor): Registry {
    stored[email := if email in stored then SaveOver(stored[email], a) else a]
  }

  lemma NothingSaved(stored: Registry, reg: Registry)
    ensures Saved(stored, reg - reg.Keys) == stored
  {
  }

  lemma SavedStep(stored: Registry, reg: Registry, rest: set<string>, email: string)
    requires email in rest && rest <= reg.Keys
    ensures Saved(stored, reg - (rest - {email})) == SaveOne(Saved(stored, reg - rest), email, reg[email])
  {
    hide SaveOver;
  }

  /** A save keeps the wider span of days and a known identifier; the counts are those saved. */
  lemma SavedSpan(stored: Registry, reg: Registry, email: string)
    requires email in stored && email in reg
    ensures var old', new', s := stored[email], reg[email], Saved(stored, reg)[email];
            && s.firstSeen in {old'.firstSeen, new'.firstSeen} && s.lastSeen in {old'.lastSeen, new'.lastSeen}
            && !Less(old'.firstSeen, s.firstSeen) && !Less(new'.firstSeen, s.firstSeen)
            && !Less(s.lastSeen, old'.lastSeen) && !Less(s.lastSeen, new'.lastSeen)
            && (s.identifier.None? <==> old'.identifier.None? && new'.identifier.None?)
            && (new'.identifier.Some? ==> s.identifier == new'.identifier)
            && s.commitCount == new'.commitCount && s.commitsByRepo == new'.commitsByRepo && s.reposSeenIn == new'.reposSeenIn
            && s.name == new'.name && s.org == new'.org && s.team == new'.team
  {
    LessTotal(stored[email].firstSeen, reg[email].firstSeen);
    LessTotal(stored[email].lastSeen, reg[email].lastSeen);
    LessIrreflexive(stored[email].firstSeen);
    LessIrreflexive(reg[email].firstSeen);
    LessIrreflexive(stored[email].lastSeen);
    LessIrreflexive(reg[email].lastSeen);
  }

  /** Saving what was merged into the stored registry stores exactly that: the conflict rules change nothing. */
  lemma MergedIsSaved(reg: Registry, rules: Rules, repo: string, raw: map<string, RawAuthor>)
    ensures Saved(reg, Merged(reg, rules, repo, raw)) == Merged(reg, rules, repo, raw)
  {
    forall k | k in reg
      ensures SaveOver(reg[k], Merged(reg, rules, repo, raw)[k]) == Merged(reg, rules, repo, raw)[k]
    {
      LessIrreflexive(reg[k].firstSeen);
      LessIrreflexive(reg[k].lastSeen);
    }
    hide SaveOver, SeenAgain, NewAuthor;
  }

  lemma SubtractedIsSaved(reg: Registry, repo: string)
    ensures Saved(reg, Subtracted(reg, repo)) == Subtracted(reg, repo)
  {
    forall k | k in reg
      ensures SaveOver(reg[k], WithoutShare(reg[k], repo)) == WithoutShare(reg[k], repo)
    {
      LessIrreflexive(reg[k].firstSeen);
      LessIrreflexive(reg[k].lastSeen);
    }
    hide SaveOver, WithoutShare;
  }

  lemma LessIrreflexive(s: string)
    ensures !Less(s, s)
  {
    if s != "" { LessIrreflexive(s[1..]); }
  }

  // ---- Balance ----

  /** An author's commit count is the sum of the per-repo shares. */
  ghost predicate Balanced(a: DiscoveredAuthor) {
    a.commitsByRepo.Some? && a.commitCount == SumValues(a.commitsByRepo.value)
  }

  lemma SeenAgainBalances(a: DiscoveredAuthor, rules: Rules, repo: string, d: RawAuthor, other: string)
    requires Balanced(a)
    ensures Balanced(SeenAgain(a, rules, repo, d))
    ensures Share(SeenAgain(a, rules, repo, d), other) == Share(a, other) + if other == repo then d.commitCount else 0
  {
    SumWrite(Shares(a), repo, Share(a, repo) + d.commitCount);
  }

  lemma NewAuthorBalances(rules: Rules, repo: string, d: RawAuthor, other: string)
    ensures Balanced(NewAuthor(rules, repo, d))
    ensures Share(NewAuthor(rules, repo, d), other) == if other == repo then d.commitCount else 0
  {
    SumWrite(map[], repo, d.commitCount);
    assert (map[])[repo := d.commitCount] == map[repo := d.commitCount];
  }

  lemma WithoutShareBalances(a: DiscoveredAuthor, repo: string, other: string)
    requires Balanced(a)
    ensures Balanced(WithoutShare(a, repo))
    ensures Share(WithoutShare(a, repo), other) == if other == repo then 0 else Share(a, other)
  {
    if repo in Shares(a) { SumWithout(Shares(a), repo); }
  }
}
