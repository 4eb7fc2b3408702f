/**
 * The serverless `status` endpoint: the score of one editorial, its
 * per-rating-level breakdown, and, when a token is given, the caller's own
 * vote. It only reads the tables.
 */
module ServerlessStatus {
  import opened Common
  import opened Tables
  import opened VercelApi
  import ServerlessVote

  datatype StatusRequest = StatusRequest(token: Option<string>, editorial: string)

  /** One editorial's status: the total, the buckets by label, and the
      caller's vote (absent without a token). */
  datatype Status = Status(score: int, scoresByRating: map<string, int>, currentVote: Option<string>)

  /** The reply for a stored vote value: `up` for 1, `down` for -1, `none`
      for anything else and for no row. */
  function VoteLabel(stored: Option<int>): (s: string)
    ensures s == "up" <==> stored == Some(1)
    ensures s == "down" <==> stored == Some(-1)
    ensures s != "up" && s != "down" ==> s == "none"
  {
    match stored
    case Some(1) => "up"
    case Some(-1) => "down"
    case _ => "none"
  }

  /** `SELECT score FROM votes WHERE user_id = user AND editorial_id = e`. */
  function StoredVote(votes: map<VoteKey, VoteRow>, user: UserId, e: EditorialId): Option<int> {
    if VoteKey(user, e) in votes then Some(votes[VoteKey(user, e)].score) else None
  }

  /** The status of a catalogued editorial. */
  ghost function EditorialStatus(t: Tables, e: EditorialId, user: Option<UserId>): Status {
    Status(BucketTotal(t.voteTemp, e), LabelMap(t.voteTemp, e),
      if user.Some? then Some(VoteLabel(StoredVote(t.votes, user.value, e))) else None)
  }

  /** The reply for an editorial that is not in the catalogue: score 0, no
      buckets, and `none` as the vote exactly when a token was given. */
  function Unregistered(user: Option<UserId>): Status {
    Status(0, map[], if user.Some? then Some("none") else None)
  }

  /** The reply for the catalogue key `url`, registered or not. */
  ghost function Entry(t: Tables, url: string, user: Option<UserId>): Status {
    if url in t.editorials then EditorialStatus(t, t.editorials[url], user) else Unregistered(user)
  }

  /** The reply: an unparseable token or a link that is not an editorial is
      an error; an editorial not in the catalogue has score 0 and no
      buckets; otherwise its buckets are summed. */
  ghost function StatusOf(api: Api, t: Tables, req: StatusRequest): Result<Status> {
    var tok := if req.token.Some? then Some(api.parseToken(req.token.value)) else None;
    if tok.Some? && tok.value.Err? then Err(tok.value.reason)
    else
      var user := if tok.Some? then Some(tok.value.value.userId) else None;
      match api.canonicalizeEditorialUrl(req.editorial)
      case None => Err(ServerlessVote.InvalidEditorialUrl)
      case Some(url) => Ok(Entry(t, url, user))
  }

  /** The handler: parse the token, canonicalise the link, look the
      editorial up, then sum its buckets and read the caller's vote. */
  method GetStatus(db: Store, api: Api, req: StatusRequest) returns (r: Result<Status>)
    ensures r == StatusOf(api, db.Snapshot(), req)
  {
    var user: Option<UserId> := None;
    if req.token.Some? {
      var tok := api.parseToken(req.token.value);
      if tok.Err? {
        return Err(tok.reason);
      }
      user := Some(tok.value.userId);
    }
    var canonical := api.canonicalizeEditorialUrl(req.editorial);
    if canonical.None? {
      return Err(ServerlessVote.InvalidEditorialUrl);
    }
    if canonical.value !in db.editorials {
      return Ok(Unregistered(user));
    }
    var e := db.editorials[canonical.value];
    var status := ReadEditorial(db, e, user);
    return Ok(status);
  }

  /** The catalogued case: sum the editorial's bucket rows, then read the
      caller's vote row. */
  method ReadEditorial(db: Store, e: EditorialId, user: Option<UserId>) returns (s: Status)
    ensures s == EditorialStatus(db.Snapshot(), e, user)
  {
    var score, buckets := AccumulateBuckets(db.voteTemp, e, 0, map[]);
    UnionEmpty(LabelMap(db.voteTemp, e));
    var current: Option<string> := None;
    if user.Some? {
      current := Some(VoteLabel(StoredVote(db.votes, user.value, e)));
    }
    s := Status(score, buckets, current);
  }

  // ---------------------------------------------------------------------
  // Properties

  /** The labels round-trip through the vote endpoint's vote strings. */
  lemma VoteLabelRoundTrip(v: int)
    requires -1 <= v <= 1
    ensures ServerlessVote.VoteValue(VoteLabel(if v == 0 then None else Some(v))) == Ok(v)
  {
  }

  /** The error cases come first: a bad token, then a bad link. */
  lemma StatusErrors(api: Api, t: Tables, req: StatusRequest)
    ensures req.token.Some? && api.parseToken(req.token.value).Err? ==>
      StatusOf(api, t, req) == Err(api.parseToken(req.token.value).reason)
    ensures (req.token.None? || api.parseToken(req.token.value).Ok?) && api.canonicalizeEditorialUrl(req.editorial).None? ==>
      StatusOf(api, t, req) == Err(ServerlessVote.InvalidEditorialUrl)
    ensures StatusOf(api, t, req).Ok? ==> (StatusOf(api, t, req).value.currentVote.Some? <==> req.token.Some?)
  {
  }

  /** On well-formed tables the reported score is the editorial's total of
      votes, every bucket is reported under `"{100 l}-{100 l + 99}"`, and the
      reported labels are exactly those of its buckets. */
  lemma StatusScoreIsVoteTotal(api: Api, t: Tables, req: StatusRequest)
    requires WellFormed(t)
    requires StatusOf(api, t, req).Ok?
    ensures var s := StatusOf(api, t, req).value;
      var url := api.canonicalizeEditorialUrl(req.editorial).value;
      && (url !in t.editorials ==> s.score == 0 && s.scoresByRating == map[])
      && (url in t.editorials ==>
            var e := t.editorials[url];
            && s.score == VoteTotal(t.votes, e)
            && (forall k :: k in t.voteTemp && k.editorial == e ==>
                  RatingLabel(k.level) in s.scoresByRating && s.scoresByRating[RatingLabel(k.level)] == t.voteTemp[k])
            && (forall l :: l in s.scoresByRating ==>
                  exists k :: k in t.voteTemp && k.editorial == e && RatingLabel(k.level) == l))
  {
    var url := api.canonicalizeEditorialUrl(req.editorial).value;
    if url in t.editorials {
      LabelMapContents(t.voteTemp, t.editorials[url]);
    }
  }

  /** Reading the status right after a successful vote with the same token
      and link reports the vote just cast. */
  lemma StatusReflectsVote(api: Api, t: Tables, req: ServerlessVote.VoteRequest, w: ServerlessVote.World)
    requires WellFormed(t)
    requires ServerlessVote.CastVote(api, t, req, w).result.Ok?
    ensures var t' := ServerlessVote.CastVote(api, t, req, w).tables;
      var s := StatusOf(api, t', StatusRequest(Some(req.token), req.editorial));
      s.Ok? && s.value.currentVote == Some(req.vote)
  {
    ServerlessVote.CastVoteRecorded(api, t, req, w);
    var t' := ServerlessVote.CastVote(api, t, req, w).tables;
    var url := api.canonicalizeEditorialUrl(req.editorial).value;
    var k := VoteKey(api.parseToken(req.token).value.userId, t'.editorials[url]);
    ServerlessVote.CastVoteWellFormed(api, t, req, w);
    if k in t'.votes {
      assert t'.votes[k].score == ServerlessVote.VoteValue(req.vote).value;
    }
  }
}
