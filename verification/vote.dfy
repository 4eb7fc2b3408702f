/**
 * The serverless `vote` endpoint: a vote string is mapped to -1, 0 or 1,
 * the caller's rating is taken from the one-hour cache or fetched, the
 * editorial is looked up (registering the whole contest on a miss), and a
 * transaction reverts the caller's old vote and applies the new one to the
 * `votes` row and the `vote_temp` bucket of the rating level.
 *
 * `CastVote` is the specification of one call (the tables afterwards and
 * the reply); `Vote` is the step-by-step handler proved against it.
 */
module ServerlessVote {
  import opened Common
  import opened Tables
  import opened VercelApi

  datatype VoteRequest = VoteRequest(token: string, contest: string, editorial: string, vote: string)

  /** What one call learns outside the database: the two clock readings, the
      scraped rating of the caller and the scraped editorial list of the
      contest (each only consulted when the handler gets to it). */
  datatype World = World(
    checkNow: nat,
    fetchNow: nat,
    scrapedRating: Result<nat>,
    scrapedEditorials: Result<seq<string>>)

  datatype Outcome = Outcome(tables: Tables, result: Result<()>)

  const InvalidVoteFormat := "invalid vote format (none|up|down)"
  /** Also the status endpoint's reply for a link that is not an editorial. */
  const InvalidEditorialUrl := "invalid editorial URL"
  /** What `query_one` reports when no row matches. */
  const UnexpectedRowCount := "query returned an unexpected number of rows"
  const CacheLifetimeSecs: nat := 60 * 60

  /** The vote string: `none`, `up` or `down`, anything else an error. */
  function VoteValue(vote: string): (r: Result<int>)
    ensures r.Ok? <==> vote == "none" || vote == "up" || vote == "down"
    ensures r.Ok? ==> -1 <= r.value <= 1
    ensures r.Err? ==> r.reason == InvalidVoteFormat
  {
    if vote == "none" then Ok(0)
    else if vote == "up" then Ok(1)
    else if vote == "down" then Ok(-1)
    else Err(InvalidVoteFormat)
  }

  // ---------------------------------------------------------------------
  // The rating the vote is cast with

  predicate HasCachedRating(users: map<UserId, User>, user: UserId) {
    user in users && users[user].rating.Some? && users[user].ratingLastUpdate.Some?
  }

  /** The cached rating exists and is at most an hour old at `now`. */
  predicate FreshCache(users: map<UserId, User>, user: UserId, now: nat) {
    HasCachedRating(users, user)
    && users[user].ratingLastUpdate.value <= now
    && now - users[user].ratingLastUpdate.value <= CacheLifetimeSecs
  }

  /** The cached rating was stamped later than `now`. */
  predicate CacheInFuture(users: map<UserId, User>, user: UserId, now: nat) {
    HasCachedRating(users, user) && now < users[user].ratingLastUpdate.value
  }

  /** `UPDATE users SET rating = r, rating_last_update = now WHERE id = user`. */
  function RecordRating(users: map<UserId, User>, user: UserId, rating: nat, now: nat): map<UserId, User> {
    if user in users then users[user := users[user].(rating := Some(rating), ratingLastUpdate := Some(now))]
    else users
  }

  /** The rating for vote `v` and the `users` table afterwards: 0 without
      looking for a `none` vote; otherwise the fresh cached rating, or a
      fetched one, which is stored with the fetch time. */
  function ResolveRating(users: map<UserId, User>, user: UserId, v: int, w: World): (Result<nat>, map<UserId, User>) {
    if v == 0 then (Ok(0), users)
    else if CacheInFuture(users, user, w.checkNow) then (Err(TimeLaterThanNow), users)
    else if FreshCache(users, user, w.checkNow) then (Ok(users[user].rating.value), users)
    else
      match w.scrapedRating
      case Err(e) => (Err(e), users)
      case Ok(r) => (Ok(r), RecordRating(users, user, r, w.fetchNow))
  }

  // ---------------------------------------------------------------------
  // The editorial id

  /** The editorial's id, registering every scraped editorial of the contest
      first when it is not catalogued yet. */
  function ResolveEditorial(t: Tables, url: string, scraped: Result<seq<string>>): (Tables, Result<EditorialId>) {
    if url in t.editorials then (t, Ok(t.editorials[url]))
    else
      match scraped
      case Err(e) => (t, Err(e))
      case Ok(urls) =>
        var t' := WithEditorials(t, urls);
        if url in t'.editorials then (t', Ok(t'.editorials[url])) else (t', Err(UnexpectedRowCount))
  }

  // ---------------------------------------------------------------------
  // The transaction

  function OldBucket(votes: map<VoteKey, VoteRow>, k: VoteKey): BucketKey
    requires k in votes
  {
    BucketKey(k.editorial, Level(votes[k].rating))
  }

  /** Subtract an existing vote from the bucket of the rating it was cast
      with. */
  function Revert(votes: map<VoteKey, VoteRow>, voteTemp: map<BucketKey, int>, k: VoteKey): map<BucketKey, int> {
    if k in votes && OldBucket(votes, k) in voteTemp then
      voteTemp[OldBucket(votes, k) := voteTemp[OldBucket(votes, k)] - votes[k].score]
    else voteTemp
  }

  /** The transaction for key `k`: revert, then delete the row for a `none`
      vote, or upsert it and add the vote to the bucket of `rating`. */
  function ApplyVote(votes: map<VoteKey, VoteRow>, voteTemp: map<BucketKey, int>, k: VoteKey, v: int, rating: nat)
    : (map<VoteKey, VoteRow>, map<BucketKey, int>)
  {
    var reverted := Revert(votes, voteTemp, k);
    if v == 0 then (votes - {k}, reverted)
    else
      var b := BucketKey(k.editorial, Level(rating));
      (votes[k := VoteRow(v, rating)], reverted[b := (if b in reverted then reverted[b] else 0) + v])
  }

  /** One call of the endpoint. The rating refresh and the editorial
      registration are kept even when a later step fails; the transaction
      runs only when every step before it succeeded. */
  function CastVote(api: Api, t: Tables, req: VoteRequest, w: World): Outcome {
    match api.parseToken(req.token)
    case Err(e) => Outcome(t, Err(e))
    case Ok(tok) =>
      match VoteValue(req.vote)
      case Err(e) => Outcome(t, Err(e))
      case Ok(v) =>
        var (rating, users') := ResolveRating(t.users, tok.userId, v, w);
        var t1 := t.(users := users');
        if rating.Err? then Outcome(t1, Err(rating.reason))
        else
          match api.canonicalizeEditorialUrl(req.editorial)
          case None => Outcome(t1, Err(InvalidEditorialUrl))
          case Some(url) =>
            var (t2, e) := ResolveEditorial(t1, url, w.scrapedEditorials);
            if e.Err? then Outcome(t2, Err(e.reason))
            else
              var (votes', voteTemp') := ApplyVote(t2.votes, t2.voteTemp, VoteKey(tok.userId, e.value), v, rating.value);
              Outcome(t2.(votes := votes', voteTemp := voteTemp'), Ok(()))
  }

  // ---------------------------------------------------------------------
  // Properties

  /** A token that does not parse, or a vote string other than `none`, `up`
      and `down`, is refused before any table is written. */
  lemma RefusedBeforeAnyWrite(api: Api, t: Tables, req: VoteRequest, w: World)
    requires api.parseToken(req.token).Err? || VoteValue(req.vote).Err?
    ensures CastVote(api, t, req, w).tables == t
    ensures api.parseToken(req.token).Err? ==> CastVote(api, t, req, w).result == Err(api.parseToken(req.token).reason)
    ensures api.parseToken(req.token).Ok? ==> CastVote(api, t, req, w).result == Err(InvalidVoteFormat)
  {
  }

  /** A `none` vote uses rating 0 and never looks at the cache, the clock or
      the rating scraper: the outcome is the same whatever they say, and the
      `users` table is untouched. */
  lemma NoneVoteNeverFetches(api: Api, t: Tables, req: VoteRequest, w: World, w': World)
    requires req.vote == "none"
    requires w'.scrapedEditorials == w.scrapedEditorials
    ensures CastVote(api, t, req, w) == CastVote(api, t, req, w')
    ensures CastVote(api, t, req, w).tables.users == t.users
  {
    var canonical := api.canonicalizeEditorialUrl(req.editorial);
    if canonical.Some? && canonical.value !in t.editorials && w.scrapedEditorials.Ok? {
      WithEditorialsContents(t, w.scrapedEditorials.value);
    }
  }

  /** A fresh cached rating is used as it is: the rating scraper and the
      fetch clock are not consulted and `users` does not change. */
  lemma FreshCacheReused(users: map<UserId, User>, user: UserId, v: int, w: World, w': World)
    requires v != 0 && FreshCache(users, user, w.checkNow) && w'.checkNow == w.checkNow
    ensures ResolveRating(users, user, v, w) == (Ok(users[user].rating.value), users)
    ensures ResolveRating(users, user, v, w') == ResolveRating(users, user, v, w)
  {
  }

  /** Without a fresh cache (no cached rating, no timestamp, or older than an
      hour) the rating is the scraped one, and it is stored with the fetch
      time if the caller's row exists; a scrape failure fails the step and
      writes nothing. A timestamp in the future is a clock error. */
  lemma StaleCacheRefetched(users: map<UserId, User>, user: UserId, v: int, w: World)
    requires v != 0
    ensures CacheInFuture(users, user, w.checkNow) ==> ResolveRating(users, user, v, w) == (Err(TimeLaterThanNow), users)
    ensures !FreshCache(users, user, w.checkNow) && !CacheInFuture(users, user, w.checkNow) ==>
      var (r, users') := ResolveRating(users, user, v, w);
      && (w.scrapedRating.Err? ==> r == Err(w.scrapedRating.reason) && users' == users)
      && (w.scrapedRating.Ok? ==>
            && r == Ok(w.scrapedRating.value)
            && users'.Keys == users.Keys
            && (user in users ==> users'[user] == users[user].(rating := Some(w.scrapedRating.value), ratingLastUpdate := Some(w.fetchNow)))
            && (forall u :: u in users && u != user ==> users'[u] == users[u]))
  {
  }

  /** The rating refresh is written outside the transaction: it stays even
      when the editorial URL is then refused. */
  lemma RatingWriteOutlivesLaterFailure(api: Api, t: Tables, req: VoteRequest, w: World)
    requires api.parseToken(req.token).Ok? && VoteValue(req.vote).Ok?
    requires ResolveRating(t.users, api.parseToken(req.token).value.userId, VoteValue(req.vote).value, w).0.Ok?
    requires api.canonicalizeEditorialUrl(req.editorial).None?
    ensures CastVote(api, t, req, w) ==
      Outcome(t.(users := ResolveRating(t.users, api.parseToken(req.token).value.userId, VoteValue(req.vote).value, w).1),
              Err(InvalidEditorialUrl))
  {
  }

  /** On a catalogue miss every scraped URL of the contest ends up in the
      catalogue, existing ids are kept, and the lookup succeeds exactly when
      the URL was among the scraped ones. */
  lemma CatalogMissRegistersContest(t: Tables, url: string, urls: seq<string>)
    requires url !in t.editorials
    ensures var (t', r) := ResolveEditorial(t, url, Ok(urls));
      && (forall u :: u in t'.editorials <==> u in t.editorials || u in urls)
      && (forall u :: u in t.editorials ==> t'.editorials[u] == t.editorials[u])
      && (r.Ok? <==> url in urls)
      && (r.Ok? ==> r.value == t'.editorials[url])
      && (r.Err? ==> r.reason == UnexpectedRowCount)
      && t'.votes == t.votes && t'.voteTemp == t.voteTemp && t'.users == t.users
  {
    WithEditorialsContents(t, urls);
  }

  /** The whole effect of the transaction, for every input. The caller's row
      is deleted for a `none` vote and otherwise set to the new vote and
      rating. Every bucket moves by at most two amounts. The bucket of the
      stored rating, when both the old vote and that bucket exist, loses the
      old vote, whatever the new rating is. The bucket of the new rating
      gains a non-`none` vote, and is created with it when absent. No other
      bucket is created. */
  lemma RevertAtStoredRating(votes: map<VoteKey, VoteRow>, voteTemp: map<BucketKey, int>, k: VoteKey, v: int, rating: nat)
    ensures var (votes', voteTemp') := ApplyVote(votes, voteTemp, k, v, rating);
      var newB := BucketKey(k.editorial, Level(rating));
      && (v == 0 ==> votes' == votes - {k})
      && (v != 0 ==> votes' == votes[k := VoteRow(v, rating)])
      && voteTemp'.Keys == voteTemp.Keys + (if v != 0 then {newB} else {})
      && (forall b :: b in voteTemp' ==>
            voteTemp'[b] == (if b in voteTemp then voteTemp[b] else 0)
              - (if k in votes && b == OldBucket(votes, k) && b in voteTemp then votes[k].score else 0)
              + (if v != 0 && b == newB then v else 0))
  {
  }

  /** A `none` vote deletes the row and adds to no bucket: only the bucket of
      the stored rating changes, losing the old vote. With no earlier vote it
      changes nothing at all. */
  lemma NoneVoteDeletes(votes: map<VoteKey, VoteRow>, voteTemp: map<BucketKey, int>, k: VoteKey, rating: nat)
    ensures var (votes', voteTemp') := ApplyVote(votes, voteTemp, k, 0, rating);
      && votes' == votes - {k}
      && voteTemp'.Keys == voteTemp.Keys
      && (forall b :: b in voteTemp ==>
            voteTemp'[b] == voteTemp[b] - (if k in votes && b == OldBucket(votes, k) then votes[k].score else 0))
    ensures k !in votes ==> ApplyVote(votes, voteTemp, k, 0, rating) == (votes, voteTemp)
  {
    if k !in votes {
      assert votes - {k} == votes;
    }
  }

  /** Only the caller's row for this editorial and this editorial's buckets
      change; every other vote and every other editorial's bucket stays. */
  lemma ApplyVoteFrame(votes: map<VoteKey, VoteRow>, voteTemp: map<BucketKey, int>, k: VoteKey, v: int, rating: nat)
    ensures var (votes', voteTemp') := ApplyVote(votes, voteTemp, k, v, rating);
      && (forall j: VoteKey :: j != k ==> (j in votes' <==> j in votes) && (j in votes ==> votes'[j] == votes[j]))
      && (forall b: BucketKey :: b.editorial != k.editorial ==> (b in voteTemp' <==> b in voteTemp) && (b in voteTemp ==> voteTemp'[b] == voteTemp[b]))
      && voteTemp.Keys <= voteTemp'.Keys
  {
  }

  /** The editorial's totals move together: both lose the old vote and gain
      the new one. */
  lemma {:induction false} ApplyVoteTotals(votes: map<VoteKey, VoteRow>, voteTemp: map<BucketKey, int>, k: VoteKey, v: int, rating: nat, e: EditorialId)
    requires TallyWellFormed(votes, voteTemp)
    ensures var (votes', voteTemp') := ApplyVote(votes, voteTemp, k, v, rating);
      var delta := if e == k.editorial then (if v == 0 then 0 else v) - (if k in votes then votes[k].score else 0) else 0;
      && VoteTotal(votes', e) == VoteTotal(votes, e) + delta
      && BucketTotal(voteTemp', e) == BucketTotal(voteTemp, e) + delta
  {
    var reverted := Revert(votes, voteTemp, k);
    if k in votes {
      BucketTotalSet(voteTemp, OldBucket(votes, k), voteTemp[OldBucket(votes, k)] - votes[k].score, e);
    }
    assert BucketTotal(reverted, e) == BucketTotal(voteTemp, e) - (if e == k.editorial && k in votes then votes[k].score else 0);
    if v == 0 {
      VoteTotalDelete(votes, k, e);
    } else {
      var b := BucketKey(k.editorial, Level(rating));
      BucketTotalSet(reverted, b, (if b in reverted then reverted[b] else 0) + v, e);
      VoteTotalSet(votes, k, VoteRow(v, rating), e);
    }
  }

  /** The transaction keeps the tally invariant (each editorial's bucket
      total equals its vote total) and the shape of the two tables. */
  lemma ApplyVoteWellFormed(votes: map<VoteKey, VoteRow>, voteTemp: map<BucketKey, int>, k: VoteKey, v: int, rating: nat)
    requires TallyWellFormed(votes, voteTemp) && -1 <= v <= 1
    ensures var (votes', voteTemp') := ApplyVote(votes, voteTemp, k, v, rating);
      TallyWellFormed(votes', voteTemp')
  {
    var (votes', voteTemp') := ApplyVote(votes, voteTemp, k, v, rating);
    forall e ensures BucketTotal(voteTemp', e) == VoteTotal(votes', e) {
      ApplyVoteTotals(votes, voteTemp, k, v, rating, e);
    }
    ApplyVoteFrame(votes, voteTemp, k, v, rating);
  }

  /** Every call, successful or not, keeps the tables well formed. */
  lemma CastVoteWellFormed(api: Api, t: Tables, req: VoteRequest, w: World)
    requires WellFormed(t)
    ensures WellFormed(CastVote(api, t, req, w).tables)
  {
    match api.parseToken(req.token)
    case Err(_) =>
    case Ok(tok) =>
      match VoteValue(req.vote)
      case Err(_) =>
      case Ok(v) =>
        var (rating, users') := ResolveRating(t.users, tok.userId, v, w);
        var t1 := t.(users := users');
        assert WellFormed(t1);
        match api.canonicalizeEditorialUrl(req.editorial)
        case None =>
        case Some(url) =>
          if url !in t1.editorials && w.scrapedEditorials.Ok? {
            WithEditorialsWellFormed(t1, w.scrapedEditorials.value);
          }
          var (t2, e) := ResolveEditorial(t1, url, w.scrapedEditorials);
          if rating.Ok? && e.Ok? {
            ApplyVoteWellFormed(t2.votes, t2.voteTemp, VoteKey(tok.userId, e.value), v, rating.value);
          }
  }

  /** After a successful call the caller's row for the editorial holds the
      new vote with the rating it was cast with (or is gone for `none`), and the editorial's score has moved
      by the difference between the new and the old vote. */
  lemma CastVoteRecorded(api: Api, t: Tables, req: VoteRequest, w: World)
    requires WellFormed(t)
    requires CastVote(api, t, req, w).result.Ok?
    ensures api.parseToken(req.token).Ok? && VoteValue(req.vote).Ok?
    ensures api.canonicalizeEditorialUrl(req.editorial).Some?
    ensures ResolveRating(t.users, api.parseToken(req.token).value.userId, VoteValue(req.vote).value, w).0.Ok?
    ensures var t' := CastVote(api, t, req, w).tables;
      var url := api.canonicalizeEditorialUrl(req.editorial).value;
      var v := VoteValue(req.vote).value;
      && url in t'.editorials
      && var k := VoteKey(api.parseToken(req.token).value.userId, t'.editorials[url]);
      && (v == 0 ==> k !in t'.votes)
      && (v != 0 ==> k in t'.votes && t'.votes[k] == VoteRow(v, ResolveRating(t.users, k.user, v, w).0.value))
      && VoteTotal(t'.votes, k.editorial) ==
           VoteTotal(t.votes, k.editorial) + v - (if k in t.votes then t.votes[k].score else 0)
  {
    var tok := api.parseToken(req.token).value;
    var v := VoteValue(req.vote).value;
    var (rating, users') := ResolveRating(t.users, tok.userId, v, w);
    var t1 := t.(users := users');
    var url := api.canonicalizeEditorialUrl(req.editorial).value;
    var (t2, e) := ResolveEditorial(t1, url, w.scrapedEditorials);
    if url !in t1.editorials {
      WithEditorialsContents(t1, w.scrapedEditorials.value);
    }
    var k := VoteKey(tok.userId, e.value);
    if url in t1.editorials {
      WithEditorialsWellFormed(t1, []);
    }
    assert t2.votes == t.votes && t2.voteTemp == t.voteTemp;
    ApplyVoteTotals(t2.votes, t2.voteTemp, k, v, rating.value, k.editorial);
  }

  // ---------------------------------------------------------------------
  // The handler

  /** The rating step: use the fresh cache, or fetch and store. */
  method ObtainRating(db: Store, user: UserId, newVote: int, w: World) returns (r: Result<nat>)
    requires db.Valid()
    modifies db
    ensures db.Valid()
    ensures (r, db.users) == ResolveRating(old(db.users), user, newVote, w)
    ensures db.Snapshot() == old(db.Snapshot()).(users := db.users)
  {
    if newVote == 0 {
      return Ok(0);
    }
    var rating: Option<nat> := None;
    if user in db.users {
      var row := db.users[user];
      if row.rating.Some? && row.ratingLastUpdate.Some? {
        if w.checkNow < row.ratingLastUpdate.value {
          return Err(TimeLaterThanNow);
        }
        if w.checkNow - row.ratingLastUpdate.value <= CacheLifetimeSecs {
          rating := row.rating;
        }
      }
    }
    if rating.None? {
      if w.scrapedRating.Err? {
        return Err(w.scrapedRating.reason);
      }
      rating := Some(w.scrapedRating.value);
      if user in db.users {
        db.users := db.users[user := db.users[user].(rating := rating, ratingLastUpdate := Some(w.fetchNow))];
      }
    }
    return Ok(rating.value);
  }

  /** The editorial step: look the URL up, registering the contest's
      editorials on a miss and looking again. */
  method FindEditorial(db: Store, url: string, scraped: Result<seq<string>>) returns (r: Result<EditorialId>)
    requires db.Valid()
    modifies db
    ensures db.Valid()
    ensures (db.Snapshot(), r) == ResolveEditorial(old(db.Snapshot()), url, scraped)
  {
    if url in db.editorials {
      return Ok(db.editorials[url]);
    }
    if scraped.Err? {
      return Err(scraped.reason);
    }
    var urls := scraped.value;
    ghost var before := db.Snapshot();
    var i := 0;
    while i < |urls|
      invariant 0 <= i <= |urls|
      invariant WithEditorials(db.Snapshot(), urls[i..]) == WithEditorials(before, urls)
      invariant db.Valid()
      modifies db
    {
      assert urls[i..][1..] == urls[i + 1..];
      db.InsertEditorial(urls[i]);
      i := i + 1;
    }
    if url !in db.editorials {
      return Err(UnexpectedRowCount);
    }
    return Ok(db.editorials[url]);
  }

  /** The transaction. */
  method Transact(db: Store, k: VoteKey, newVote: int, newRating: nat)
    modifies db
    ensures (db.votes, db.voteTemp) == ApplyVote(old(db.votes), old(db.voteTemp), k, newVote, newRating)
    ensures db.Snapshot() == old(db.Snapshot()).(votes := db.votes, voteTemp := db.voteTemp)
  {
    if k in db.votes {
      var b := BucketKey(k.editorial, Level(db.votes[k].rating));
      if b in db.voteTemp {
        db.voteTemp := db.voteTemp[b := db.voteTemp[b] - db.votes[k].score];
      }
    }
    if newVote == 0 {
      db.votes := db.votes - {k};
    } else {
      db.votes := db.votes[k := VoteRow(newVote, newRating)];
      var b := BucketKey(k.editorial, Level(newRating));
      if b in db.voteTemp {
        db.voteTemp := db.voteTemp[b := db.voteTemp[b] + newVote];
      } else {
        db.voteTemp := db.voteTemp[b := newVote];
      }
    }
  }

  /** The vote handler. Every outcome keeps the store valid. */
  method Vote(db: Store, api: Api, req: VoteRequest, w: World) returns (r: Result<()>)
    requires db.Valid()
    modifies db
    ensures db.Valid()
    ensures Outcome(db.Snapshot(), r) == CastVote(api, old(db.Snapshot()), req, w)
  {
    CastVoteWellFormed(api, db.Snapshot(), req, w);
    var tok := api.parseToken(req.token);
    if tok.Err? {
      return Err(tok.reason);
    }
    var user := tok.value.userId;
    var parsed := VoteValue(req.vote);
    if parsed.Err? {
      return Err(parsed.reason);
    }
    var newVote := parsed.value;
    var rating := ObtainRating(db, user, newVote, w);
    if rating.Err? {
      return Err(rating.reason);
    }
    var canonical := api.canonicalizeEditorialUrl(req.editorial);
    if canonical.None? {
      return Err(InvalidEditorialUrl);
    }
    var editorial := FindEditorial(db, canonical.value, w.scrapedEditorials);
    if editorial.Err? {
      return Err(editorial.reason);
    }
    Transact(db, VoteKey(user, editorial.value), newVote, rating.value);
    return Ok(());
  }
}
