/**
 * The serverless `statuses` endpoint: the status of a batch of editorial
 * links, one result per position. The links are looked up raw, with no
 * canonicalisation.
 *
 * Without a token every position is filled on its own. With a token the
 * handler first collects the matched editorial ids in a list and an
 * id -> position map, then adds every bucket row and vote row of each
 * listed id to the position the map names. A link given twice therefore
 * appears twice in the list but once in the map: the last position gets the
 * buckets added once per repetition, and the earlier positions keep the
 * defaults. `WithToken` models that code as written, `WithTokenFixed` the
 * evidently intended one result per position.
 */
module ServerlessStatuses {
  import opened Common
  import opened Tables
  import opened VercelApi
  import opened ServerlessStatus

  const MaxEditorials := 256
  const TooManyEditorials := "number of editorials must be less than or equal to 256"

  /** A position's initial result when a token is given. */
  const TokenDefault := Status(0, map[], Some("none"))

  // ---------------------------------------------------------------------
  // The id list and the id -> position map

  /** The ids of the matched links, in position order, repeats included. */
  function Matched(editorials: map<string, EditorialId>, urls: seq<string>): seq<EditorialId> {
    if urls == [] then []
    else
      var rest := Matched(editorials, urls[..|urls| - 1]);
      var u := urls[|urls| - 1];
      if u in editorials then rest + [editorials[u]] else rest
  }

  /** `editorial_id_map`: each matched id to the position last inserted for
      it. */
  function IndexMap(editorials: map<string, EditorialId>, urls: seq<string>): map<EditorialId, nat> {
    if urls == [] then map[]
    else
      var rest := IndexMap(editorials, urls[..|urls| - 1]);
      var u := urls[|urls| - 1];
      if u in editorials then rest[editorials[u] := |urls| - 1] else rest
  }

  /** The map is keyed by exactly the listed ids, names a position holding
      that id, and no later position holds it. */
  lemma {:induction false} IndexMapFacts(editorials: map<string, EditorialId>, urls: seq<string>)
    ensures forall id :: id in IndexMap(editorials, urls) <==> id in Matched(editorials, urls)
    ensures forall id :: id in IndexMap(editorials, urls) ==>
      var x := IndexMap(editorials, urls)[id];
      x < |urls| && urls[x] in editorials && editorials[urls[x]] == id
    ensures forall x :: 0 <= x < |urls| && urls[x] in editorials ==>
      editorials[urls[x]] in IndexMap(editorials, urls) && x <= IndexMap(editorials, urls)[editorials[urls[x]]]
    decreases |urls|
  {
    if urls != [] {
      var p := urls[..|urls| - 1];
      IndexMapFacts(editorials, p);
      forall x | 0 <= x < |p| ensures urls[x] == p[x] { }
    }
  }

  /** Every listed id comes from some position. */
  lemma {:induction false} MatchedSound(editorials: map<string, EditorialId>, urls: seq<string>, id: EditorialId)
    requires id in Matched(editorials, urls)
    ensures exists y :: 0 <= y < |urls| && urls[y] in editorials && editorials[urls[y]] == id
    decreases |urls|
  {
    var p := urls[..|urls| - 1];
    if id in Matched(editorials, p) {
      MatchedSound(editorials, p, id);
      var y :| 0 <= y < |p| && p[y] in editorials && editorials[p[y]] == id;
      assert urls[y] == p[y];
    } else {
      assert urls[|urls| - 1] in editorials && editorials[urls[|urls| - 1]] == id;
    }
  }

  /** The first row loop: one `(id, index)` row per matched position. The
      query has no `ORDER BY`. Here the rows arrive in position order, so
      the map keeps the last position of a repeated link. */
  method MatchEditorials(editorials: map<string, EditorialId>, urls: seq<string>)
    returns (ids: seq<EditorialId>, idMap: map<EditorialId, nat>)
    ensures ids == Matched(editorials, urls) && idMap == IndexMap(editorials, urls)
  {
    ids, idMap := [], map[];
    for i := 0 to |urls|
      invariant ids == Matched(editorials, urls[..i])
      invariant idMap == IndexMap(editorials, urls[..i])
    {
      assert urls[..i + 1][..i] == urls[..i];
      if urls[i] in editorials {
        ids := ids + [editorials[urls[i]]];
        idMap := idMap[editorials[urls[i]] := i];
      }
    }
    assert urls[..|urls|] == urls;
  }

  // ---------------------------------------------------------------------
  // The reply with a token, as written

  /** The maps the first row loop can leave, whatever order the rows come
      in: keyed by exactly the listed ids, each naming a position that holds
      its id. */
  ghost predicate IdMapFor(editorials: map<string, EditorialId>, urls: seq<string>, m: map<EditorialId, nat>) {
    && (forall id :: id in m <==> id in Matched(editorials, urls))
    && (forall id :: id in m ==> m[id] < |urls| && urls[m[id]] in editorials && editorials[urls[m[id]]] == id)
  }

  /** Position `x` is the one map `m` names for its id. */
  ghost predicate SlotIn(editorials: map<string, EditorialId>, urls: seq<string>, m: map<EditorialId, nat>, x: int)
    requires 0 <= x < |urls|
  {
    && urls[x] in editorials
    && editorials[urls[x]] in m
    && m[editorials[urls[x]]] == x
  }

  /** Position `x` is the one the map names for its id, with the rows in
      position order. */
  ghost predicate IsSlot(editorials: map<string, EditorialId>, urls: seq<string>, x: int)
    requires 0 <= x < |urls|
  {
    SlotIn(editorials, urls, IndexMap(editorials, urls), x)
  }

  /** Position `x` after the bucket rows of the ids `done` have been added. */
  ghost function Scored(t: Tables, urls: seq<string>, done: seq<EditorialId>, x: int): Status
    requires 0 <= x < |urls|
  {
    if IsSlot(t.editorials, urls, x) then
      var e := t.editorials[urls[x]];
      var c := multiset(done)[e];
      Status(c * BucketTotal(t.voteTemp, e), if c > 0 then LabelMap(t.voteTemp, e) else map[], Some("none"))
    else TokenDefault
  }

  /** Position `x`'s vote after the vote rows of the ids `done` have been
      read. */
  ghost function VotedIn(t: Tables, urls: seq<string>, user: UserId, done: seq<EditorialId>, x: int): Option<string>
    requires 0 <= x < |urls|
  {
    if IsSlot(t.editorials, urls, x) && t.editorials[urls[x]] in done then
      Some(VoteLabel(StoredVote(t.votes, user, t.editorials[urls[x]])))
    else Some("none")
  }

  /** Position `x` of the reply with a token, as written, when the first row
      loop left map `m`: only the position `m` names for an id is filled,
      with the buckets counted once per position holding that id. */
  ghost function EntryIn(t: Tables, urls: seq<string>, user: UserId, m: map<EditorialId, nat>, x: int): Status
    requires 0 <= x < |urls|
  {
    if SlotIn(t.editorials, urls, m, x) then
      var e := t.editorials[urls[x]];
      Status(multiset(Matched(t.editorials, urls))[e] * BucketTotal(t.voteTemp, e), LabelMap(t.voteTemp, e),
        Some(VoteLabel(StoredVote(t.votes, user, e))))
    else Unregistered(Some(user))
  }

  /** Position `x` of the reply with a token, with the rows in position
      order. */
  ghost function TokenEntry(t: Tables, urls: seq<string>, user: UserId, x: int): Status
    requires 0 <= x < |urls|
  {
    EntryIn(t, urls, user, IndexMap(t.editorials, urls), x)
  }

  lemma MulSucc(c: int, b: int)
    ensures c * b + b == (c + 1) * b
  {
  }

  lemma UnionSelf<L, V>(m: map<L, V>)
    ensures m + m == m
  {
  }

  /** The second row loop: every bucket row of every listed id is added to
      the position the map names. */
  method AddScores(db: Store, urls: seq<string>, ids: seq<EditorialId>, idMap: map<EditorialId, nat>, a: array<Status>)
    requires ids == Matched(db.editorials, urls) && idMap == IndexMap(db.editorials, urls)
    requires a.Length == |urls|
    requires forall x :: 0 <= x < a.Length ==> a[x] == TokenDefault
    modifies a
    ensures forall x :: 0 <= x < a.Length ==> a[x] == Scored(db.Snapshot(), urls, ids, x)
  {
    ghost var t := db.Snapshot();
    IndexMapFacts(db.editorials, urls);
    for j := 0 to |ids|
      invariant forall x :: 0 <= x < a.Length ==> a[x] == Scored(t, urls, ids[..j], x)
    {
      var id := ids[j];
      var idx := idMap[id];
      ScoredStep(t, urls, ids, j);
      var score, labels := AccumulateBuckets(db.voteTemp, id, a[idx].score, a[idx].scoresByRating);
      a[idx] := Status(score, labels, a[idx].currentVote);
    }
    assert ids[..|ids|] == ids;
  }

  /** Adding the bucket rows of `ids[j]` changes only the position the map
      names for it, by its total and its labelled buckets. */
  lemma ScoredStep(t: Tables, urls: seq<string>, ids: seq<EditorialId>, j: nat)
    requires ids == Matched(t.editorials, urls) && j < |ids|
    ensures ids[j] in IndexMap(t.editorials, urls)
    ensures var idx := IndexMap(t.editorials, urls)[ids[j]];
      && idx < |urls|
      && var before := Scored(t, urls, ids[..j], idx);
      && Scored(t, urls, ids[..j + 1], idx)
           == Status(before.score + BucketTotal(t.voteTemp, ids[j]), before.scoresByRating + LabelMap(t.voteTemp, ids[j]), before.currentVote)
      && (forall x :: 0 <= x < |urls| && x != idx ==> Scored(t, urls, ids[..j + 1], x) == Scored(t, urls, ids[..j], x))
  {
    IndexMapFacts(t.editorials, urls);
    var id := ids[j];
    assert ids[..j + 1] == ids[..j] + [id];
    assert id in Matched(t.editorials, urls);
    var idx := IndexMap(t.editorials, urls)[id];
    assert SlotIn(t.editorials, urls, IndexMap(t.editorials, urls), idx);
    ScoredAtSlot(t, urls, ids[..j], id, idx);
    forall x | 0 <= x < |urls| && x != idx
      ensures Scored(t, urls, ids[..j + 1], x) == Scored(t, urls, ids[..j], x)
    {
      ScoredElsewhere(t, urls, ids[..j], id, idx, x);
    }
  }

  /** Adding the rows of `id` to the position named for it adds its total
      and its labelled buckets. */
  lemma ScoredAtSlot(t: Tables, urls: seq<string>, done: seq<EditorialId>, id: EditorialId, idx: nat)
    requires idx < |urls| && urls[idx] in t.editorials && t.editorials[urls[idx]] == id
    requires IsSlot(t.editorials, urls, idx)
    ensures var before := Scored(t, urls, done, idx);
      Scored(t, urls, done + [id], idx)
        == Status(before.score + BucketTotal(t.voteTemp, id), before.scoresByRating + LabelMap(t.voteTemp, id), before.currentVote)
  {
    var c := multiset(done)[id];
    var b := BucketTotal(t.voteTemp, id);
    var labels := LabelMap(t.voteTemp, id);
    assert multiset(done + [id])[id] == c + 1 by {
      assert multiset(done + [id]) == multiset(done) + multiset{id};
    }
    assert SlotIn(t.editorials, urls, IndexMap(t.editorials, urls), idx);
    var before := Scored(t, urls, done, idx);
    assert before == Status(c * b, if c > 0 then labels else map[], Some("none"));
    assert Scored(t, urls, done + [id], idx) == Status((c + 1) * b, labels, Some("none"));
    assert before.scoresByRating + labels == labels by {
      UnionEmpty(labels);
      UnionSelf(labels);
    }
    MulSucc(c, b);
  }

  /** Adding the rows of `id` leaves a position not named for `id` alone. */
  lemma ScoredElsewhere(t: Tables, urls: seq<string>, done: seq<EditorialId>, id: EditorialId, idx: nat, x: nat)
    requires id in IndexMap(t.editorials, urls) && idx == IndexMap(t.editorials, urls)[id]
    requires x < |urls| && x != idx
    ensures Scored(t, urls, done + [id], x) == Scored(t, urls, done, x)
  {
    assert multiset(done + [id]) == multiset(done) + multiset{id};
    if IsSlot(t.editorials, urls, x) {
      var e := t.editorials[urls[x]];
      assert e != id;
      assert multiset(done + [id])[e] == multiset(done)[e];
    }
  }

  /** The third row loop: every vote row of the caller on a listed id sets
      the position the map names to `up` or `down`; other values change
      nothing. */
  method MarkVotes(db: Store, urls: seq<string>, ids: seq<EditorialId>, idMap: map<EditorialId, nat>, user: UserId, a: array<Status>)
    requires ids == Matched(db.editorials, urls) && idMap == IndexMap(db.editorials, urls)
    requires a.Length == |urls|
    requires forall x :: 0 <= x < a.Length ==> a[x] == Scored(db.Snapshot(), urls, ids, x)
    modifies a
    ensures forall x :: 0 <= x < a.Length ==>
      a[x] == Scored(db.Snapshot(), urls, ids, x).(currentVote := VotedIn(db.Snapshot(), urls, user, ids, x))
  {
    ghost var t := db.Snapshot();
    IndexMapFacts(db.editorials, urls);
    for j := 0 to |ids|
      invariant forall x :: 0 <= x < a.Length ==>
        a[x] == Scored(t, urls, ids, x).(currentVote := VotedIn(t, urls, user, ids[..j], x))
    {
      var id := ids[j];
      assert ids[..j + 1] == ids[..j] + [id];
      var idx := idMap[id];
      assert IsSlot(db.editorials, urls, idx);
      var k := VoteKey(user, id);
      if k in db.votes {
        var score := db.votes[k].score;
        if score == 1 {
          a[idx] := a[idx].(currentVote := Some("up"));
        } else if score == -1 {
          a[idx] := a[idx].(currentVote := Some("down"));
        }
      }
      forall x | 0 <= x < a.Length && x != idx
        ensures VotedIn(t, urls, user, ids[..j + 1], x) == VotedIn(t, urls, user, ids[..j], x)
      {
        if IsSlot(db.editorials, urls, x) {
          assert db.editorials[urls[x]] != id;
        }
      }
    }
    assert ids[..|ids|] == ids;
  }

  /** `use_db` with a token, after the token has been parsed. */
  method WithToken(db: Store, urls: seq<string>, user: UserId) returns (results: seq<Status>)
    ensures |results| == |urls|
    ensures forall x :: 0 <= x < |urls| ==> results[x] == TokenEntry(db.Snapshot(), urls, user, x)
  {
    var ids, idMap := MatchEditorials(db.editorials, urls);
    var a := new Status[|urls|](_ => TokenDefault);
    AddScores(db, urls, ids, idMap, a);
    MarkVotes(db, urls, ids, idMap, user, a);
    results := a[..];
    IndexMapFacts(db.editorials, urls);
    forall x | 0 <= x < |urls| ensures results[x] == TokenEntry(db.Snapshot(), urls, user, x) {
      if IsSlot(db.editorials, urls, x) {
        assert db.editorials[urls[x]] in ids;
      }
    }
  }

  // ---------------------------------------------------------------------
  // The reply without a token, and the intended reply with one

  /** `use_db` without a token: each bucket row of a matched position is
      added to that position. */
  method WithoutToken(db: Store, urls: seq<string>) returns (results: seq<Status>)
    ensures |results| == |urls|
    ensures forall x :: 0 <= x < |urls| ==> results[x] == Entry(db.Snapshot(), urls[x], None)
  {
    ghost var t := db.Snapshot();
    ghost var want := Entries(t, urls, None);
    var a := new Status[|urls|](_ => Unregistered(None));
    for index := 0 to |urls|
      invariant a[..index] == want[..index]
      invariant forall x :: index <= x < a.Length ==> a[x] == Unregistered(None)
    {
      if urls[index] in db.editorials {
        var s := ReadEditorial(db, db.editorials[urls[index]], None);
        assert s == want[index];
        a[index] := s;
      } else {
        assert a[index] == want[index];
      }
    }
    assert a[..] == a[..|urls|];
    results := a[..];
  }

  /** The intended reply with a token: every position is filled on its own,
      repeats included. */
  method WithTokenFixed(db: Store, urls: seq<string>, user: UserId) returns (results: seq<Status>)
    ensures |results| == |urls|
    ensures forall x :: 0 <= x < |urls| ==> results[x] == Entry(db.Snapshot(), urls[x], Some(user))
  {
    ghost var t := db.Snapshot();
    ghost var want := Entries(t, urls, Some(user));
    var a := new Status[|urls|](_ => Unregistered(Some(user)));
    for index := 0 to |urls|
      invariant a[..index] == want[..index]
      invariant forall x :: index <= x < a.Length ==> a[x] == Unregistered(Some(user))
    {
      if urls[index] in db.editorials {
        var s := ReadEditorial(db, db.editorials[urls[index]], Some(user));
        assert s == want[index];
        a[index] := s;
      } else {
        assert a[index] == want[index];
      }
    }
    assert a[..] == a[..|urls|];
    results := a[..];
  }

  // ---------------------------------------------------------------------
  // The handler

  /** One `Entry` per link, in position order. */
  ghost function Entries(t: Tables, urls: seq<string>, user: Option<UserId>): (r: seq<Status>)
    ensures |r| == |urls|
    ensures forall x :: 0 <= x < |urls| ==> r[x] == Entry(t, urls[x], user)
  {
    if urls == [] then []
    else Entries(t, urls[..|urls| - 1], user) + [Entry(t, urls[|urls| - 1], user)]
  }

  /** The first `n` positions of the reply with a token, as written. */
  ghost function TokenEntries(t: Tables, urls: seq<string>, user: UserId, n: nat): (r: seq<Status>)
    requires n <= |urls|
    ensures |r| == n
    ensures forall x :: 0 <= x < n ==> r[x] == TokenEntry(t, urls, user, x)
  {
    if n == 0 then []
    else TokenEntries(t, urls, user, n - 1) + [TokenEntry(t, urls, user, n - 1)]
  }

  /** The reply of the endpoint as written. */
  ghost function Statuses(api: Api, t: Tables, token: Option<string>, urls: seq<string>): Result<seq<Status>> {
    if |urls| > MaxEditorials then Err(TooManyEditorials)
    else if token.None? then Ok(Entries(t, urls, None))
    else match api.parseToken(token.value)
      case Err(reason) => Err(reason)
      case Ok(tok) => Ok(TokenEntries(t, urls, tok.userId, |urls|))
  }

  /** The intended reply: each position as the single-status endpoint
      would answer it for the raw link. */
  ghost function StatusesFixed(api: Api, t: Tables, token: Option<string>, urls: seq<string>): Result<seq<Status>> {
    if |urls| > MaxEditorials then Err(TooManyEditorials)
    else
      var tok := if token.Some? then Some(api.parseToken(token.value)) else None;
      if tok.Some? && tok.value.Err? then Err(tok.value.reason)
      else
        var user := if tok.Some? then Some(tok.value.value.userId) else None;
        Ok(Entries(t, urls, user))
  }

  /** `proc`: the batch bound, then `use_db`. */
  method GetStatuses(db: Store, api: Api, token: Option<string>, urls: seq<string>) returns (r: Result<seq<Status>>)
    ensures r == Statuses(api, db.Snapshot(), token, urls)
  {
    if |urls| > MaxEditorials {
      return Err(TooManyEditorials);
    }
    if token.None? {
      var results := WithoutToken(db, urls);
      assert results == Entries(db.Snapshot(), urls, None);
      return Ok(results);
    }
    var tok := api.parseToken(token.value);
    if tok.Err? {
      return Err(tok.reason);
    }
    var results := WithToken(db, urls, tok.value.userId);
    assert results == TokenEntries(db.Snapshot(), urls, tok.value.userId, |urls|);
    return Ok(results);
  }

  /** `proc` with the intended `use_db`. */
  method GetStatusesFixed(db: Store, api: Api, token: Option<string>, urls: seq<string>) returns (r: Result<seq<Status>>)
    ensures r == StatusesFixed(api, db.Snapshot(), token, urls)
  {
    if |urls| > MaxEditorials {
      return Err(TooManyEditorials);
    }
    if token.None? {
      var results := WithoutToken(db, urls);
      assert results == Entries(db.Snapshot(), urls, None);
      return Ok(results);
    }
    var tok := api.parseToken(token.value);
    if tok.Err? {
      return Err(tok.reason);
    }
    var results := WithTokenFixed(db, urls, tok.value.userId);
    assert results == Entries(db.Snapshot(), urls, Some(tok.value.userId));
    return Ok(results);
  }

  // ---------------------------------------------------------------------
  // Properties

  /** More than 256 links is refused whatever the tables and the token. */
  lemma TooManyRefused(api: Api, t: Tables, token: Option<string>, urls: seq<string>)
    requires |urls| > MaxEditorials
    ensures Statuses(api, t, token, urls) == Err(TooManyEditorials)
    ensures StatusesFixed(api, t, token, urls) == Err(TooManyEditorials)
  {
  }

  /** A reply has one result per position; an unmatched position keeps the
      defaults, whose vote is `none` exactly when a token was given. */
  lemma OnePerPosition(api: Api, t: Tables, token: Option<string>, urls: seq<string>)
    requires Statuses(api, t, token, urls).Ok?
    ensures var r := Statuses(api, t, token, urls).value;
      && |r| == |urls|
      && (forall x :: 0 <= x < |urls| && urls[x] !in t.editorials ==>
            r[x].score == 0 && r[x].scoresByRating == map[] && (r[x].currentVote == Some("none") <==> token.Some?))
      && (forall x :: 0 <= x < |urls| ==> (r[x].currentVote.Some? <==> token.Some?))
  {
  }

  /** Links are looked up raw: the canonicaliser plays no part. */
  lemma RawLinks(api: Api, t: Tables, token: Option<string>, urls: seq<string>, c: string -> Option<string>)
    ensures Statuses(api, t, token, urls) == Statuses(api.(canonicalizeEditorialUrl := c), t, token, urls)
  {
  }

  /** With a token, a stored vote of 1 or -1 is reported as `up` or `down`
      at the position filled for the editorial, and anything else as
      `none`. */
  lemma TokenVotes(t: Tables, urls: seq<string>, user: UserId, x: int)
    requires 0 <= x < |urls| && IsSlot(t.editorials, urls, x)
    ensures var e := t.editorials[urls[x]];
      var v := TokenEntry(t, urls, user, x).currentVote;
      && (v == Some("up") <==> StoredVote(t.votes, user, e) == Some(1))
      && (v == Some("down") <==> StoredVote(t.votes, user, e) == Some(-1))
      && (v == Some("none") <==> StoredVote(t.votes, user, e) !in {Some(1), Some(-1)})
  {
  }

  /** Counting the listed copies of an id when no two positions resolve to
      the same editorial. */
  lemma {:induction false} MatchedOnce(editorials: map<string, EditorialId>, urls: seq<string>, y: int)
    requires forall i, j :: 0 <= i < j < |urls| && urls[i] in editorials && urls[j] in editorials ==>
      editorials[urls[i]] != editorials[urls[j]]
    requires 0 <= y < |urls| && urls[y] in editorials
    ensures multiset(Matched(editorials, urls))[editorials[urls[y]]] == 1
    decreases |urls|
  {
    var p := urls[..|urls| - 1];
    var e := editorials[urls[y]];
    forall i, j | 0 <= i < j < |p| && p[i] in editorials && p[j] in editorials
      ensures editorials[p[i]] != editorials[p[j]]
    {
      assert p[i] == urls[i] && p[j] == urls[j];
    }
    if y < |p| {
      assert p[y] == urls[y];
      MatchedOnce(editorials, p, y);
      var u := urls[|urls| - 1];
      if u in editorials {
        assert editorials[u] != e;
        assert Matched(editorials, urls) == Matched(editorials, p) + [editorials[u]];
      }
    } else {
      if e in Matched(editorials, p) {
        MatchedSound(editorials, p, e);
        assert false;
      }
      assert Matched(editorials, urls) == Matched(editorials, p) + [e];
    }
  }

  /** When no link is repeated, the reply as written is the intended one. */
  lemma DistinctLinksAgree(api: Api, t: Tables, token: Option<string>, urls: seq<string>)
    requires EditorialsWellFormed(t.editorials, t.nextEditorialId)
    requires forall i, j :: 0 <= i < j < |urls| ==> urls[i] != urls[j]
    ensures Statuses(api, t, token, urls) == StatusesFixed(api, t, token, urls)
  {
    if |urls| <= MaxEditorials && token.Some? && api.parseToken(token.value).Ok? {
      var user := api.parseToken(token.value).value.userId;
      var ed := t.editorials;
      IndexMapFacts(ed, urls);
      forall x | 0 <= x < |urls| ensures TokenEntry(t, urls, user, x) == Entry(t, urls[x], Some(user)) {
        if urls[x] in ed {
          var y := IndexMap(ed, urls)[ed[urls[x]]];
          assert urls[y] == urls[x];
          MatchedOnce(ed, urls, x);
        }
      }
      assert Statuses(api, t, token, urls).value == StatusesFixed(api, t, token, urls).value;
    }
  }

  /** The tables of `DuplicateLinkCounterexample`: one editorial `"u"` with
      a single bucket holding 1. */
  const OneVoteTables := Tables(map[], 1, map["u" := 1], 2, map[], map[BucketKey(1, 0) := 1])

  /** A link given twice: the first position keeps the defaults and the
      second reports score 2, although the editorial's total is 1. */
  lemma DuplicateLinkCounterexample(user: UserId)
    ensures BucketTotal(OneVoteTables.voteTemp, 1) == 1
    ensures TokenEntry(OneVoteTables, ["u", "u"], user, 0) == Unregistered(Some(user))
    ensures TokenEntry(OneVoteTables, ["u", "u"], user, 1).score == 2
    ensures Entry(OneVoteTables, "u", Some(user)).score == 1
  {
    var t := OneVoteTables;
    var k := BucketKey(1, 0);
    assert BucketKeysOf(t.voteTemp, 1) == {k};
    SumOnRemove(t.voteTemp, {k}, k);
    assert {k} - {k} == {};
    var urls := ["u", "u"];
    assert urls[..1] == ["u"] && urls[..1][..0] == [];
    assert Matched(t.editorials, urls) == [1, 1];
    assert IndexMap(t.editorials, urls) == map[1 := 1];
    assert multiset([1, 1])[1] == 2;
  }

  /** With a token, of all the positions whose link names editorial `e`
      exactly one is filled. It reports `e`'s bucket total times the number
      of those positions, and every other one keeps the defaults. This holds
      for every map the first row loop can leave, so for every order of its
      rows; only which position is filled depends on the order. */
  lemma RepeatedLinkOneSlot(t: Tables, urls: seq<string>, user: UserId, m: map<EditorialId, nat>, x: int)
    requires IdMapFor(t.editorials, urls, m)
    requires 0 <= x < |urls| && urls[x] in t.editorials
    ensures var e := t.editorials[urls[x]];
      && (exists y :: 0 <= y < |urls| && urls[y] in t.editorials && t.editorials[urls[y]] == e && SlotIn(t.editorials, urls, m, y))
      && (forall y, z ::
            (0 <= y < |urls| && 0 <= z < |urls| && SlotIn(t.editorials, urls, m, y) && SlotIn(t.editorials, urls, m, z)
             && t.editorials[urls[y]] == e && t.editorials[urls[z]] == e) ==> y == z)
      && (forall y :: 0 <= y < |urls| && urls[y] in t.editorials && t.editorials[urls[y]] == e ==>
            if SlotIn(t.editorials, urls, m, y)
            then EntryIn(t, urls, user, m, y).score == multiset(Matched(t.editorials, urls))[e] * BucketTotal(t.voteTemp, e)
            else EntryIn(t, urls, user, m, y) == Unregistered(Some(user)))
  {
    IndexMapFacts(t.editorials, urls);
    var e := t.editorials[urls[x]];
    assert e in Matched(t.editorials, urls);
    var y := m[e];
    assert SlotIn(t.editorials, urls, m, y);
  }

  /** The map the rows leave in position order is one of them. */
  lemma IndexMapIsIdMap(editorials: map<string, EditorialId>, urls: seq<string>)
    ensures IdMapFor(editorials, urls, IndexMap(editorials, urls))
  {
    IndexMapFacts(editorials, urls);
  }

  /** With well-formed tables, the position filled for an editorial reports
      its vote total times the number of positions naming it. */
  lemma TokenScoreCounts(t: Tables, urls: seq<string>, user: UserId, x: int)
    requires WellFormed(t)
    requires 0 <= x < |urls| && IsSlot(t.editorials, urls, x)
    ensures var e := t.editorials[urls[x]];
      TokenEntry(t, urls, user, x).score == multiset(Matched(t.editorials, urls))[e] * VoteTotal(t.votes, e)
  {
    assert TallyConsistent(t.votes, t.voteTemp);
  }
}
