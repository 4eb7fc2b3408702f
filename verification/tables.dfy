/**
 * The serverless deployment's PostgreSQL tables, as maps held by one
 * `Store` object: `users`, `editorials`, `votes` (one row per user and
 * editorial: the vote's score and the rating it was cast with) and
 * `vote_temp` (one running score per editorial and rating level). Serial ids
 * are modelled by a next-id counter per table.
 *
 * The tally invariant is `TallyConsistent`: for every editorial the
 * `vote_temp` scores add up to the `votes` scores.
 */
module Tables {
  import opened Common

  type UserId = nat
  type EditorialId = nat

  /** A `users` row: the AtCoder id and the cached rating with the time it
      was fetched (both NULL until the first fetch). */
  datatype User = User(atcoderId: string, rating: Option<nat>, ratingLastUpdate: Option<nat>)

  datatype VoteKey = VoteKey(user: UserId, editorial: EditorialId)

  /** A `votes` row: the vote (1 or -1) and the rating snapshot it was cast
      with. */
  datatype VoteRow = VoteRow(score: int, rating: nat)

  datatype BucketKey = BucketKey(editorial: EditorialId, level: nat)

  /** The rating level a rating falls into: `rating / 100` (SQL `smallint`
      division truncates, which for ratings, never negative, is the floor). */
  function Level(rating: nat): nat {
    rating / 100
  }

  datatype Tables = Tables(
    users: map<UserId, User>,
    nextUserId: UserId,
    editorials: map<string, EditorialId>,
    nextEditorialId: EditorialId,
    votes: map<VoteKey, VoteRow>,
    voteTemp: map<BucketKey, int>)

  // ---------------------------------------------------------------------
  // Sums over finite sets of keys

  ghost function SumOn<K>(m: map<K, int>, ks: set<K>): int
    requires ks <= m.Keys
    decreases ks
  {
    if ks == {} then 0 else var k :| k in ks; m[k] + SumOn(m, ks - {k})
  }

  /** The sum does not depend on which key is taken out first. */
  lemma {:induction false} SumOnRemove<K>(m: map<K, int>, ks: set<K>, k: K)
    requires ks <= m.Keys && k in ks
    ensures SumOn(m, ks) == m[k] + SumOn(m, ks - {k})
    decreases ks
  {
    var x :| x in ks && SumOn(m, ks) == m[x] + SumOn(m, ks - {x});
    if x != k {
      SumOnRemove(m, ks - {x}, k);
      SumOnRemove(m, ks - {k}, x);
      assert ks - {x} - {k} == ks - {k} - {x};
    }
  }

  lemma {:induction false} SumOnAgree<K>(m: map<K, int>, m': map<K, int>, ks: set<K>)
    requires ks <= m.Keys && ks <= m'.Keys
    requires forall k :: k in ks ==> m[k] == m'[k]
    ensures SumOn(m, ks) == SumOn(m', ks)
    decreases ks
  {
    if ks != {} {
      var k :| k in ks;
      SumOnRemove(m, ks, k);
      SumOnRemove(m', ks, k);
      SumOnAgree(m, m', ks - {k});
    }
  }

  lemma SumOnUpdate<K>(m: map<K, int>, ks: set<K>, k: K, v: int)
    requires ks <= m.Keys && k in ks
    ensures SumOn(m[k := v], ks) == SumOn(m, ks) - m[k] + v
  {
    SumOnRemove(m, ks, k);
    SumOnRemove(m[k := v], ks, k);
    SumOnAgree(m, m[k := v], ks - {k});
  }

  lemma SumOnAdd<K>(m: map<K, int>, ks: set<K>, k: K, v: int)
    requires ks <= m.Keys && k !in ks
    ensures SumOn(m[k := v], ks + {k}) == SumOn(m, ks) + v
  {
    SumOnRemove(m[k := v], ks + {k}, k);
    assert ks + {k} - {k} == ks;
    SumOnAgree(m, m[k := v], ks);
  }

  ghost predicate InjectiveOn<K, L>(f: K -> L, ks: set<K>) {
    forall a, b :: a in ks && b in ks && f(a) == f(b) ==> a == b
  }

  /** The entries of `m` on `ks`, each moved to key `f(k)`. */
  ghost function Relabel<K, L>(m: map<K, int>, ks: set<K>, f: K -> L): (r: map<L, int>)
    requires ks <= m.Keys && InjectiveOn(f, ks)
    ensures forall k :: k in ks ==> f(k) in r && r[f(k)] == m[k]
    ensures forall l :: l in r ==> exists k :: k in ks && f(k) == l
  {
    map k | k in ks :: f(k) := m[k]
  }

  lemma RelabelAdd<K, L>(m: map<K, int>, ks: set<K>, f: K -> L, k: K)
    requires ks <= m.Keys && k in m && k !in ks && InjectiveOn(f, ks + {k})
    ensures Relabel(m, ks + {k}, f) == Relabel(m, ks, f)[f(k) := m[k]]
  {
    var big, small := Relabel(m, ks + {k}, f), Relabel(m, ks, f);
    var upd := small[f(k) := m[k]];
    forall l | l in big ensures l in upd && big[l] == upd[l] {
      var j :| j in ks + {k} && f(j) == l;
    }
    forall l | l in upd ensures l in big {
      if l != f(k) {
        var j :| j in ks && f(j) == l;
      }
    }
  }

  // ---------------------------------------------------------------------
  // Per-editorial totals

  ghost function BucketKeysOf(voteTemp: map<BucketKey, int>, e: EditorialId): set<BucketKey> {
    set k | k in voteTemp.Keys && k.editorial == e
  }

  /** `SUM(score) FROM vote_temp WHERE editorial_id = e`. */
  ghost function BucketTotal(voteTemp: map<BucketKey, int>, e: EditorialId): int {
    SumOn(voteTemp, BucketKeysOf(voteTemp, e))
  }

  ghost function Scores(votes: map<VoteKey, VoteRow>): map<VoteKey, int> {
    map k | k in votes :: votes[k].score
  }

  ghost function VoteKeysOf(votes: map<VoteKey, VoteRow>, e: EditorialId): set<VoteKey> {
    set k | k in votes.Keys && k.editorial == e
  }

  /** `SUM(score) FROM votes WHERE editorial_id = e`. */
  ghost function VoteTotal(votes: map<VoteKey, VoteRow>, e: EditorialId): int {
    SumOn(Scores(votes), VoteKeysOf(votes, e))
  }

  /** The tally invariant: each editorial's bucket total equals its vote
      total. */
  ghost predicate TallyConsistent(votes: map<VoteKey, VoteRow>, voteTemp: map<BucketKey, int>) {
    forall e :: BucketTotal(voteTemp, e) == VoteTotal(votes, e)
  }

  /** Setting one bucket changes only its editorial's total, by the change in
      that bucket. */
  lemma BucketTotalSet(voteTemp: map<BucketKey, int>, k: BucketKey, v: int, e: EditorialId)
    ensures BucketTotal(voteTemp[k := v], e) ==
      BucketTotal(voteTemp, e)
      - (if k.editorial == e && k in voteTemp then voteTemp[k] else 0)
      + (if k.editorial == e then v else 0)
  {
    var vt' := voteTemp[k := v];
    var ks, ks' := BucketKeysOf(voteTemp, e), BucketKeysOf(vt', e);
    if k.editorial != e {
      assert ks' == ks;
      SumOnAgree(voteTemp, vt', ks);
    } else if k in voteTemp {
      assert ks' == ks;
      SumOnUpdate(voteTemp, ks, k, v);
    } else {
      assert ks' == ks + {k};
      SumOnAdd(voteTemp, ks, k, v);
    }
  }

  lemma VoteTotalSet(votes: map<VoteKey, VoteRow>, k: VoteKey, row: VoteRow, e: EditorialId)
    ensures VoteTotal(votes[k := row], e) ==
      VoteTotal(votes, e)
      - (if k.editorial == e && k in votes then votes[k].score else 0)
      + (if k.editorial == e then row.score else 0)
  {
    var v' := votes[k := row];
    var s, s' := Scores(votes), Scores(v');
    assert s' == s[k := row.score];
    var ks, ks' := VoteKeysOf(votes, e), VoteKeysOf(v', e);
    if k.editorial != e {
      assert ks' == ks;
      SumOnAgree(s, s', ks);
    } else if k in votes {
      assert ks' == ks;
      SumOnUpdate(s, ks, k, row.score);
    } else {
      assert ks' == ks + {k};
      SumOnAdd(s, ks, k, row.score);
    }
  }

  lemma VoteTotalDelete(votes: map<VoteKey, VoteRow>, k: VoteKey, e: EditorialId)
    ensures VoteTotal(votes - {k}, e) ==
      VoteTotal(votes, e) - (if k.editorial == e && k in votes then votes[k].score else 0)
  {
    var v' := votes - {k};
    var s, s' := Scores(votes), Scores(v');
    var ks, ks' := VoteKeysOf(votes, e), VoteKeysOf(v', e);
    if k.editorial == e && k in votes {
      assert ks' == ks - {k};
      SumOnRemove(s, ks, k);
      SumOnAgree(s, s', ks');
    } else {
      assert ks' == ks;
      SumOnAgree(s, s', ks);
    }
  }

  // ---------------------------------------------------------------------
  // Bucket labels

  /** The key of rating level `l` in `scores_by_rating`:
      `format!("{}-{}", 100 l, 100 l + 99)`. */
  function RatingLabel(level: nat): string {
    Decimal(100 * level) + ['-'] + Decimal(100 * level + 99)
  }

  /** Distinct levels get distinct labels, and the label's lower bound reads
      back as the level's first rating. */
  lemma RatingLabelInjective(a: nat, b: nat)
    ensures RatingLabel(a) == RatingLabel(b) <==> a == b
    ensures var s := RatingLabel(a); ParseDecimal(s[..|Decimal(100 * a)|]) == 100 * a
  {
    if RatingLabel(a) == RatingLabel(b) {
      DecimalNoDash(100 * a);
      DecimalNoDash(100 * b);
      SeparatedUnique(Decimal(100 * a), Decimal(100 * a + 99), Decimal(100 * b), Decimal(100 * b + 99), '-');
      DecimalInjective(100 * a, 100 * b);
    }
    var s := RatingLabel(a);
    assert s[..|Decimal(100 * a)|] == Decimal(100 * a);
  }

  /** Labels of distinct buckets of one editorial differ. */
  lemma LabelsDiffer(j: BucketKey, k: BucketKey)
    requires j.editorial == k.editorial && j != k
    ensures RatingLabel(j.level) != RatingLabel(k.level)
  {
    RatingLabelInjective(j.level, k.level);
  }

  function BucketLabel(k: BucketKey): string {
    RatingLabel(k.level)
  }

  lemma BucketLabelsInjective(ks: set<BucketKey>, e: EditorialId)
    requires forall k :: k in ks ==> k.editorial == e
    ensures InjectiveOn(BucketLabel, ks)
  {
    forall a, b | a in ks && b in ks && BucketLabel(a) == BucketLabel(b) ensures a == b {
      if a != b {
        LabelsDiffer(a, b);
      }
    }
  }

  /** The buckets `ks` of editorial `e`, each under its label. */
  ghost function LabelsOf(voteTemp: map<BucketKey, int>, e: EditorialId, ks: set<BucketKey>): map<string, int> {
    if ks <= BucketKeysOf(voteTemp, e) then
      BucketLabelsInjective(ks, e);
      Relabel(voteTemp, ks, BucketLabel)
    else map[]
  }

  /** `scores_by_rating` of editorial `e`: each of its buckets under its
      label. */
  ghost function LabelMap(voteTemp: map<BucketKey, int>, e: EditorialId): map<string, int> {
    LabelsOf(voteTemp, e, BucketKeysOf(voteTemp, e))
  }

  /** The label map holds exactly the editorial's buckets, each under its
      label `"{100 l}-{100 l + 99}"`. */
  lemma LabelMapContents(voteTemp: map<BucketKey, int>, e: EditorialId)
    ensures forall k :: k in voteTemp && k.editorial == e ==>
      RatingLabel(k.level) in LabelMap(voteTemp, e) && LabelMap(voteTemp, e)[RatingLabel(k.level)] == voteTemp[k]
    ensures forall s :: s in LabelMap(voteTemp, e) ==>
      exists k :: k in voteTemp && k.editorial == e && RatingLabel(k.level) == s
  {
    var ks := BucketKeysOf(voteTemp, e);
    BucketLabelsInjective(ks, e);
    assert LabelMap(voteTemp, e) == Relabel(voteTemp, ks, BucketLabel);
    forall s | s in LabelMap(voteTemp, e)
      ensures exists k :: k in voteTemp && k.editorial == e && RatingLabel(k.level) == s
    {
      var k :| k in ks && BucketLabel(k) == s;
    }
  }

  lemma LabelsOfStep(voteTemp: map<BucketKey, int>, e: EditorialId, done: set<BucketKey>, k: BucketKey)
    requires done <= BucketKeysOf(voteTemp, e) && k in BucketKeysOf(voteTemp, e) && k !in done
    ensures LabelsOf(voteTemp, e, done + {k}) == LabelsOf(voteTemp, e, done)[RatingLabel(k.level) := voteTemp[k]]
    ensures SumOn(voteTemp, done + {k}) == SumOn(voteTemp, done) + voteTemp[k]
  {
    BucketLabelsInjective(done + {k}, e);
    RelabelAdd(voteTemp, done, BucketLabel, k);
    SumOnRemove(voteTemp, done + {k}, k);
    assert done + {k} - {k} == done;
  }

  lemma MoveOne<K>(rows: set<K>, done: set<K>, all: set<K>, k: K)
    requires rows + done == all && rows !! done && k in rows
    ensures (rows - {k}) + (done + {k}) == all && (rows - {k}) !! (done + {k})
    ensures done + {k} <= all && k !in done
  {
  }

  lemma UnionEmpty<L, V>(b: map<L, V>)
    ensures map[] + b == b
  {
  }

  lemma UnionUpdate<L, V>(a: map<L, V>, b: map<L, V>, l: L, v: V)
    ensures a + b[l := v] == (a + b)[l := v]
  {
  }

  /** The row loop of the score readers: every bucket row of editorial `e`
      is added to a running score and stored under its label. */
  method AccumulateBuckets(voteTemp: map<BucketKey, int>, e: EditorialId, score0: int, labels0: map<string, int>)
    returns (score: int, labels: map<string, int>)
    ensures score == score0 + BucketTotal(voteTemp, e)
    ensures labels == labels0 + LabelMap(voteTemp, e)
  {
    var rows := set k | k in voteTemp.Keys && k.editorial == e;
    ghost var all := BucketKeysOf(voteTemp, e);
    ghost var done: set<BucketKey> := {};
    score, labels := score0, labels0;
    while rows != {}
      invariant rows + done == all && rows !! done
      invariant score == score0 + SumOn(voteTemp, done)
      invariant labels == labels0 + LabelsOf(voteTemp, e, done)
      decreases |rows|
    {
      var k :| k in rows;
      MoveOne(rows, done, all, k);
      LabelsOfStep(voteTemp, e, done, k);
      var lk := RatingLabel(k.level);
      UnionUpdate(labels0, LabelsOf(voteTemp, e, done), lk, voteTemp[k]);
      score := score + voteTemp[k];
      labels := labels[lk := voteTemp[k]];
      rows := rows - {k};
      done := done + {k};
    }
  }

  // ---------------------------------------------------------------------
  // The invariant of the tables

  /** Every vote is 1 or -1, its bucket row exists, and the tally invariant holds. */
  ghost predicate TallyWellFormed(votes: map<VoteKey, VoteRow>, voteTemp: map<BucketKey, int>) {
    && (forall k :: k in votes ==>
          (votes[k].score == 1 || votes[k].score == -1)
          && BucketKey(k.editorial, Level(votes[k].rating)) in voteTemp)
    && TallyConsistent(votes, voteTemp)
  }

  /** Serial ids lie below the next id; `atcoder_id` is UNIQUE. */
  ghost predicate UsersWellFormed(users: map<UserId, User>, nextUserId: UserId) {
    && (forall u :: u in users ==> u < nextUserId)
    && (forall u, v :: u in users && v in users && users[u].atcoderId == users[v].atcoderId ==> u == v)
  }

  /** Serial ids lie below the next id; `editorial` is UNIQUE, so distinct
      URLs have distinct ids. */
  ghost predicate EditorialsWellFormed(editorials: map<string, EditorialId>, nextEditorialId: EditorialId) {
    && (forall url :: url in editorials ==> editorials[url] < nextEditorialId)
    && (forall a, b :: a in editorials && b in editorials && editorials[a] == editorials[b] ==> a == b)
  }

  ghost predicate WellFormed(t: Tables) {
    && TallyWellFormed(t.votes, t.voteTemp)
    && UsersWellFormed(t.users, t.nextUserId)
    && EditorialsWellFormed(t.editorials, t.nextEditorialId)
  }

  const EmptyTables := Tables(map[], 1, map[], 1, map[], map[])

  lemma EmptyWellFormed()
    ensures WellFormed(EmptyTables)
  {
    forall e ensures BucketTotal(map[], e) == VoteTotal(map[], e) {
      assert BucketKeysOf(map[], e) == {};
      assert VoteKeysOf(map[], e) == {};
    }
  }

  // ---------------------------------------------------------------------
  // Inserts that ignore conflicts

  /** `INSERT INTO editorials(editorial) VALUES(url) ON CONFLICT DO
      NOTHING`: a new URL gets the next serial id. */
  function WithEditorial(t: Tables, url: string): (t': Tables)
    ensures t'.editorials.Keys == t.editorials.Keys + {url}
    ensures forall u :: u in t.editorials ==> t'.editorials[u] == t.editorials[u]
    ensures t' == t.(editorials := t'.editorials, nextEditorialId := t'.nextEditorialId)
  {
    if url in t.editorials then t
    else t.(editorials := t.editorials[url := t.nextEditorialId], nextEditorialId := t.nextEditorialId + 1)
  }

  /** The insert loop over every scraped editorial URL of a contest. */
  function WithEditorials(t: Tables, urls: seq<string>): Tables
    decreases |urls|
  {
    if urls == [] then t else WithEditorials(WithEditorial(t, urls[0]), urls[1..])
  }

  /** After the loop the catalogue holds exactly the old URLs and the scraped
      ones; existing ids and every other table are unchanged. */
  lemma {:induction false} WithEditorialsContents(t: Tables, urls: seq<string>)
    ensures var t' := WithEditorials(t, urls);
      && (forall u :: u in t'.editorials <==> u in t.editorials || u in urls)
      && (forall u :: u in t.editorials ==> t'.editorials[u] == t.editorials[u])
      && t' == t.(editorials := t'.editorials, nextEditorialId := t'.nextEditorialId)
    decreases |urls|
  {
    if urls != [] {
      WithEditorialsContents(WithEditorial(t, urls[0]), urls[1..]);
      forall u ensures u in urls <==> u == urls[0] || u in urls[1..] {
        if u in urls {
          var i :| 0 <= i < |urls| && urls[i] == u;
          if i > 0 {
            assert urls[1..][i - 1] == u;
          }
        }
      }
    }
  }

  lemma WithEditorialWellFormed(t: Tables, url: string)
    requires WellFormed(t)
    ensures WellFormed(WithEditorial(t, url))
  {
  }

  lemma {:induction false} WithEditorialsWellFormed(t: Tables, urls: seq<string>)
    requires WellFormed(t)
    ensures WellFormed(WithEditorials(t, urls))
    decreases |urls|
  {
    if urls != [] {
      WithEditorialWellFormed(t, urls[0]);
      WithEditorialsWellFormed(WithEditorial(t, urls[0]), urls[1..]);
    }
  }

  ghost predicate HasUser(t: Tables, atcoderId: string) {
    exists u :: u in t.users && t.users[u].atcoderId == atcoderId
  }

  /** `INSERT INTO users(atcoder_id) VALUES(id) ON CONFLICT DO NOTHING`
      followed by `SELECT id FROM users WHERE atcoder_id = id`. */
  ghost function WithUser(t: Tables, atcoderId: string): (r: (Tables, UserId))
    ensures r.1 in r.0.users && r.0.users[r.1].atcoderId == atcoderId
    ensures HasUser(t, atcoderId) ==> r.0 == t
    ensures !HasUser(t, atcoderId) ==>
      r.1 == t.nextUserId && r.0 == t.(users := t.users[r.1 := User(atcoderId, None, None)], nextUserId := r.1 + 1)
  {
    if HasUser(t, atcoderId) then
      var u :| u in t.users && t.users[u].atcoderId == atcoderId;
      (t, u)
    else
      (t.(users := t.users[t.nextUserId := User(atcoderId, None, None)], nextUserId := t.nextUserId + 1), t.nextUserId)
  }

  /** Get-or-insert is idempotent: a second call returns the same id and
      adds no row. */
  lemma WithUserIdempotent(t: Tables, atcoderId: string)
    requires WellFormed(t)
    ensures var (t1, u1) := WithUser(t, atcoderId);
      WithUser(t1, atcoderId) == (t1, u1)
  {
    var (t1, u1) := WithUser(t, atcoderId);
    var (t2, u2) := WithUser(t1, atcoderId);
    assert HasUser(t1, atcoderId);
    WithUserWellFormed(t, atcoderId);
  }

  lemma WithUserWellFormed(t: Tables, atcoderId: string)
    requires WellFormed(t)
    ensures WellFormed(WithUser(t, atcoderId).0)
  {
  }

  /** The row found is the only row with that id, whether it was there
      before or has just been added; no other row changes. */
  lemma WithUserUnique(t: Tables, atcoderId: string)
    requires WellFormed(t)
    ensures var (t', u) := WithUser(t, atcoderId);
      && (forall v :: v in t'.users && t'.users[v].atcoderId == atcoderId ==> v == u)
      && (forall v :: v in t.users ==> v in t'.users && t'.users[v] == t.users[v])
      && |t'.users.Keys - t.users.Keys| <= 1
  {
    var (t', u) := WithUser(t, atcoderId);
    if !HasUser(t, atcoderId) {
      assert u !in t.users;
      assert t'.users.Keys - t.users.Keys == {u};
    }
  }

  class Store {
    var users: map<UserId, User>
    var nextUserId: UserId
    var editorials: map<string, EditorialId>
    var nextEditorialId: EditorialId
    var votes: map<VoteKey, VoteRow>
    var voteTemp: map<BucketKey, int>

    function Snapshot(): Tables
      reads this
    {
      Tables(users, nextUserId, editorials, nextEditorialId, votes, voteTemp)
    }

    ghost predicate Valid()
      reads this
    {
      WellFormed(Snapshot())
    }

    constructor ()
      ensures Valid() && Snapshot() == EmptyTables
    {
      users, nextUserId := map[], 1;
      editorials, nextEditorialId := map[], 1;
      votes, voteTemp := map[], map[];
      EmptyWellFormed();
    }

    /** `INSERT INTO editorials(editorial) VALUES(url) ON CONFLICT DO
        NOTHING`. */
    method InsertEditorial(url: string)
      requires Valid()
      modifies this
      ensures Valid()
      ensures Snapshot() == WithEditorial(old(Snapshot()), url)
    {
      WithEditorialWellFormed(Snapshot(), url);
      if url !in editorials {
        editorials := editorials[url := nextEditorialId];
        nextEditorialId := nextEditorialId + 1;
      }
    }

    /** The user id for `atcoderId`, inserting a row first if there is
        none. */
    method GetOrInsertUser(atcoderId: string) returns (id: UserId)
      requires Valid()
      modifies this
      ensures Valid()
      ensures (Snapshot(), id) == WithUser(old(Snapshot()), atcoderId)
    {
      ghost var t := Snapshot();
      var found: Option<UserId> := None;
      var table := users;
      var rows := table.Keys;
      while rows != {}
        invariant rows <= table.Keys
        invariant found.None? ==> forall u :: u in table.Keys - rows ==> table[u].atcoderId != atcoderId
        invariant found.Some? ==> found.value in table && table[found.value].atcoderId == atcoderId
        decreases |rows|
      {
        var u :| u in rows;
        if table[u].atcoderId == atcoderId {
          found := Some(u);
        }
        rows := rows - {u};
      }
      if found.Some? {
        id := found.value;
      } else {
        id := nextUserId;
        users := users[id := User(atcoderId, None, None)];
        nextUserId := nextUserId + 1;
      }
      WithUserWellFormed(t, atcoderId);
    }
  }
}
