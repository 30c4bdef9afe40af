/** Rewriting the attribution of stored rows, store/sqlite-store.ts `reattributeRecordsSQL`. */
module Reattribution {
  import opened Permutations
  import opened Measures
  import opened Records

  datatype Update = Update(email: string, member: string, org: string, orgType: string, team: string, tag: string)

  /** The order in which SQLite hands out a set of rows. */
  type RowOrder = set<Key> -> seq<Key>

  ghost predicate ListsEachOnce(order: RowOrder) {
    forall s: set<Key> :: multiset(order(s)) == multiset(s)
  }

  function ByEmail(t: Table, email: string): set<Key> {
    set k | k in t && t[k].id.email == email
  }

  function Attribute(id: Identity, u: Update): Identity {
    Identity(u.email, u.org, u.orgType, u.team, u.tag, id.group)
  }

  function Renamed(k: Key, row: Row, u: Update): Record {
    Record(Key(u.member, k.week, k.repo), row.(id := Attribute(row.id, u)))
  }

  /** The dedicated upsert: on conflict it merges and also overwrites every identity column but the group. */
  function ReattributeUpsert(t: Table, r: Record): Table {
    t[r.key :=
      if r.key in t then Merge(t[r.key], r.row).(id := r.row.id.(group := t[r.key].id.group)) else r.row]
  }

  /** Put the rows of `keys`, as they were in `source`, back under their new attribution. */
  function PutBack(base: Table, source: Table, keys: seq<Key>, u: Update): Table
    requires forall k :: k in keys ==> k in source
  {
    if keys == [] then base
    else
      var last := keys[|keys| - 1];
      ReattributeUpsert(PutBack(base, source, keys[..|keys| - 1], u), Renamed(last, source[last], u))
  }

  ghost function ApplyUpdate(t: Table, u: Update, order: RowOrder): Table
    requires ListsEachOnce(order)
  {
    OrderedRows(t, ByEmail(t, u.email), order);
    PutBack(t - ByEmail(t, u.email), t, order(ByEmail(t, u.email)), u)
  }

  lemma OrderedRows(t: Table, s: set<Key>, order: RowOrder)
    requires ListsEachOnce(order)
    ensures forall k :: k in order(s) <==> k in s
  {
    assert multiset(order(s)) == multiset(s);
    assert forall k :: k in order(s) <==> k in multiset(order(s));
  }

  ghost function ApplyUpdates(t: Table, us: seq<Update>, order: RowOrder): Table
    requires ListsEachOnce(order)
  {
    if us == [] then t else ApplyUpdate(ApplyUpdates(t, us[..|us| - 1], order), us[|us| - 1], order)
  }

  // ---- Conservation ----

  /** The keys of one (week, repo). */
  ghost function Slot(week: string, repo: string): Key -> bool {
    (k: Key) => k.week == week && k.repo == repo
  }

  ghost function Held(t: Table, sel: Key -> bool): Key -> Measure {
    (k: Key) => Part(t, sel, k)
  }

  lemma {:induction false} TotalTakeOut(t: Table, sel: Key -> bool, keys: seq<Key>)
    requires forall i, j :: 0 <= i < j < |keys| ==> keys[i] != keys[j]
    ensures Total(t, sel) == Total(t - (set k | k in keys), sel).Join(SumOf(keys, Held(t, sel)))
  {
    hide Measure.Join;
    if keys == [] {
      assert t - (set k | k in keys) == t;
      JoinNothing(Total(t, sel));
    } else {
      var front, last := keys[..|keys| - 1], keys[|keys| - 1];
      TotalTakeOut(t, sel, front);
      var rest := t - set k | k in front;
      TotalWithout(rest, sel, last);
      assert last !in front;
      assert (set k | k in keys) == (set k | k in front) + {last};
      assert rest - {last} == t - set k | k in keys;
      assert Part(rest, sel, last) == Part(t, sel, last);
      JoinAssociates(Total(rest - {last}, sel), Part(t, sel, last), SumOf(front, Held(t, sel)));
      JoinCommutes(Part(t, sel, last), SumOf(front, Held(t, sel)));
    }
  }

  lemma {:induction false} TotalPutBack(base: Table, source: Table, keys: seq<Key>, u: Update, week: string, repo: string)
    requires forall k :: k in keys ==> k in source
    ensures Total(PutBack(base, source, keys, u), Slot(week, repo))
         == Total(base, Slot(week, repo)).Join(SumOf(keys, Held(source, Slot(week, repo))))
  {
    hide Measure.Join, MergeActiveDays;
    var sel := Slot(week, repo);
    if keys == [] {
      JoinNothing(Total(base, sel));
    } else {
      var front, last := keys[..|keys| - 1], keys[|keys| - 1];
      TotalPutBack(base, source, front, u, week, repo);
      var before, r := PutBack(base, source, front, u), Renamed(last, source[last], u);
      JoinNothing(r.row.measure);
      TotalWrite(before, sel, r.key, ReattributeUpsert(before, r)[r.key], r.row.measure);
      JoinAssociates(Total(base, sel), SumOf(front, Held(source, sel)), Part(source, sel, last));
    }
  }

  lemma DistinctRows(s: set<Key>, order: RowOrder)
    requires ListsEachOnce(order)
    ensures forall i, j :: 0 <= i < j < |order(s)| ==> order(s)[i] != order(s)[j]
  {
    var keys := order(s);
    forall i, j | 0 <= i < j < |keys|
      ensures keys[i] != keys[j]
    {
      TakeOut(keys, j);
      var others := keys[..j] + keys[j + 1..];
      assert multiset(keys) == multiset(s);
      assert multiset(keys)[keys[j]] == multiset(others)[keys[j]] + 1;
      assert multiset(s)[keys[j]] <= 1;
      assert keys[j] !in multiset(others);
      assert others[i] == keys[i];
      assert keys[i] in multiset(others);
    }
  }

  /** Nothing measured is lost or invented in any (week, repo), collisions included. */
  lemma UpdateConserves(t: Table, u: Update, order: RowOrder, week: string, repo: string)
    requires ListsEachOnce(order)
    ensures Total(ApplyUpdate(t, u, order), Slot(week, repo)) == Total(t, Slot(week, repo))
  {
    var moved := ByEmail(t, u.email);
    var keys := order(moved);
    OrderedRows(t, moved, order);
    DistinctRows(moved, order);
    assert (set k | k in keys) == moved;
    TotalTakeOut(t, Slot(week, repo), keys);
    TotalPutBack(t - moved, t, keys, u, week, repo);
  }

  /** For any list of updates every additive counter, scope set and weekday-mask union per (week, repo) is unchanged. */
  lemma {:induction false} ReattributionConserves(t: Table, us: seq<Update>, order: RowOrder, week: string, repo: string)
    requires ListsEachOnce(order)
    ensures Total(ApplyUpdates(t, us, order), Slot(week, repo)) == Total(t, Slot(week, repo))
  {
    if us != [] {
      ReattributionConserves(t, us[..|us| - 1], order, week, repo);
      UpdateConserves(ApplyUpdates(t, us[..|us| - 1], order), us[|us| - 1], order, week, repo);
    }
  }

  // ---- Attribution ----

  ghost predicate Carries(k: Key, row: Row, u: Update) {
    && k.member == u.member
    && row.id.email == u.email && row.id.org == u.org && row.id.orgType == u.orgType
    && row.id.team == u.team && row.id.tag == u.tag
  }

  /** Every row with the update's email carries the update's attribution. */
  ghost predicate Attributed(t: Table, u: Update) {
    forall k :: k in t && t[k].id.email == u.email ==> Carries(k, t[k], u)
  }

  ghost predicate MovesTo(keys: seq<Key>, u: Update, k: Key) {
    exists i :: 0 <= i < |keys| && k == Key(u.member, keys[i].week, keys[i].repo)
  }

  /** Which rows the put-back writes, what it leaves alone, and what it stamps on what it writes. */
  lemma {:induction false} PutBackShape(base: Table, source: Table, keys: seq<Key>, u: Update, k: Key)
    requires forall x :: x in keys ==> x in source
    ensures var t := PutBack(base, source, keys, u);
            && (k in t <==> k in base || MovesTo(keys, u, k))
            && (k in t && MovesTo(keys, u, k) ==> Carries(k, t[k], u))
            && (k in base && !MovesTo(keys, u, k) ==> t[k] == base[k])
            && (k in base ==> t[k].id.group == base[k].id.group)
  {
    if keys != [] {
      hide Merge;
      var front, last := keys[..|keys| - 1], keys[|keys| - 1];
      PutBackShape(base, source, front, u, k);
      if i :| 0 <= i < |keys| && k == Key(u.member, keys[i].week, keys[i].repo) {
        assert i < |front| ==> front[i] == keys[i];
      }
      if i :| 0 <= i < |front| && k == Key(u.member, front[i].week, front[i].repo) {
        assert keys[i] == front[i];
      }
    }
  }

  /** One update: exactly the rows of its email move, to its member, and carry its attribution; no other row changes. */
  lemma UpdateShape(t: Table, u: Update, order: RowOrder, k: Key)
    requires ListsEachOnce(order)
    ensures var after := ApplyUpdate(t, u, order);
            var target := exists j :: j in t && t[j].id.email == u.email && k == Key(u.member, j.week, j.repo);
            && (k in after <==> (k in t && t[k].id.email != u.email) || target)
            && (target ==> Carries(k, after[k], u))
            && (k in after && !target ==> after[k] == t[k])
            && (k in t && t[k].id.email != u.email ==> k in after && after[k].id.group == t[k].id.group)
  {
    var moved := ByEmail(t, u.email);
    var keys := order(moved);
    OrderedRows(t, moved, order);
    PutBackShape(t - moved, t, keys, u, k);
    if j :| j in t && t[j].id.email == u.email && k == Key(u.member, j.week, j.repo) {
      assert j in moved;
      var i :| 0 <= i < |keys| && keys[i] == j;
      assert MovesTo(keys, u, k);
    }
    if MovesTo(keys, u, k) {
      var i :| 0 <= i < |keys| && k == Key(u.member, keys[i].week, keys[i].repo);
      assert keys[i] in moved;
    }
  }

  lemma UpdateAttributes(t: Table, u: Update, order: RowOrder)
    requires ListsEachOnce(order)
    ensures Attributed(ApplyUpdate(t, u, order), u)
  {
    forall k | k in ApplyUpdate(t, u, order) && ApplyUpdate(t, u, order)[k].id.email == u.email
      ensures Carries(k, ApplyUpdate(t, u, order)[k], u)
    {
      UpdateShape(t, u, order, k);
    }
  }

  /** A later update for another email may take such rows over but never changes one that keeps the email. */
  lemma OtherUpdateKeeps(t: Table, u: Update, other: Update, order: RowOrder)
    requires ListsEachOnce(order) && Attributed(t, u) && other.email != u.email
    ensures Attributed(ApplyUpdate(t, other, order), u)
  {
    forall k | k in ApplyUpdate(t, other, order) && ApplyUpdate(t, other, order)[k].id.email == u.email
      ensures Carries(k, ApplyUpdate(t, other, order)[k], u)
    {
      UpdateShape(t, other, order, k);
    }
  }

  /** After the whole list, the last update naming an email decides the attribution of all its rows. */
  lemma {:induction false} LastUpdateWins(t: Table, us: seq<Update>, order: RowOrder, i: nat)
    requires ListsEachOnce(order) && i < |us|
    requires forall j :: i < j < |us| ==> us[j].email != us[i].email
    ensures Attributed(ApplyUpdates(t, us, order), us[i])
  {
    var before := ApplyUpdates(t, us[..|us| - 1], order);
    if i == |us| - 1 {
      UpdateAttributes(before, us[i], order);
    } else {
      LastUpdateWins(t, us[..|us| - 1], order, i);
      OtherUpdateKeeps(before, us[i], us[|us| - 1], order);
    }
  }
}
