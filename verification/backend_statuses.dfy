/**
 * The standalone backend's `statuses` route over its SQLite tables, which
 * have the same shape as the serverless ones. Each position is looked up
 * and filled on its own.
 *
 * The route reads `user_id` from the value its `parse_token` returns, while
 * the backend's own `parse_token` returns a `String`. The parser the route
 * relies on is therefore a parameter yielding the user id or a reason.
 */
module BackendStatuses {
  import opened Common
  import opened Tables
  import opened ServerlessStatus
  import ServerlessStatuses

  /** The reply of `inner`. */
  ghost function Statuses(parse: string -> Result<UserId>, t: Tables, token: Option<string>, urls: seq<string>): Result<seq<Status>> {
    if |urls| > ServerlessStatuses.MaxEditorials then Err(ServerlessStatuses.TooManyEditorials)
    else if token.Some? && parse(token.value).Err? then Err(parse(token.value).reason)
    else
      var user := if token.Some? then Some(parse(token.value).value) else None;
      Ok(ServerlessStatuses.Entries(t, urls, user))
  }

  /** `inner`: the bound, the token, then one lookup per position. */
  method Inner(db: Store, parse: string -> Result<UserId>, token: Option<string>, urls: seq<string>)
    returns (r: Result<seq<Status>>)
    ensures r == Statuses(parse, db.Snapshot(), token, urls)
  {
    if |urls| > ServerlessStatuses.MaxEditorials {
      return Err(ServerlessStatuses.TooManyEditorials);
    }
    var user: Option<UserId> := None;
    if token.Some? {
      var p := parse(token.value);
      if p.Err? {
        return Err(p.reason);
      }
      user := Some(p.value);
    }
    var results := Lookups(db, urls, user);
    return Ok(results);
  }

  /** The loop `for i in 0 .. req.editorials.len()`. */
  method Lookups(db: Store, urls: seq<string>, user: Option<UserId>) returns (results: seq<Status>)
    ensures results == ServerlessStatuses.Entries(db.Snapshot(), urls, user)
  {
    ghost var want := ServerlessStatuses.Entries(db.Snapshot(), urls, user);
    var a := new Status[|urls|](_ => Unregistered(user));
    for i := 0 to |urls|
      invariant a[..i] == want[..i]
      invariant forall x :: i <= x < a.Length ==> a[x] == Unregistered(user)
    {
      if urls[i] !in db.editorials {
        assert a[i] == want[i];
        continue;
      }
      var e := db.editorials[urls[i]];
      var score, labels := AccumulateBuckets(db.voteTemp, e, a[i].score, a[i].scoresByRating);
      UnionEmpty(LabelMap(db.voteTemp, e));
      var current := a[i].currentVote;
      if user.Some? {
        var k := VoteKey(user.value, e);
        if k in db.votes {
          var s := db.votes[k].score;
          current := Some(if s == 1 then "up" else if s == -1 then "down" else "none");
        } else {
          current := Some("none");
        }
      }
      a[i] := Status(score, labels, current);
      assert a[i] == want[i];
    }
    assert a[..] == a[..|urls|];
    results := a[..];
  }

  // ---------------------------------------------------------------------
  // Properties

  /** The bound and the token come first: more than 256 links, or a token
      that does not parse, is refused whatever the tables hold. */
  lemma RefusedFirst(parse: string -> Result<UserId>, t: Tables, token: Option<string>, urls: seq<string>)
    ensures |urls| > ServerlessStatuses.MaxEditorials ==> Statuses(parse, t, token, urls) == Err(ServerlessStatuses.TooManyEditorials)
    ensures |urls| <= ServerlessStatuses.MaxEditorials && token.Some? && parse(token.value).Err? ==>
      Statuses(parse, t, token, urls) == Err(parse(token.value).reason)
  {
  }

  /** One result per position; a missing editorial keeps the defaults, with
      `none` as the vote exactly when a token was given; a present one
      reports its total, its labelled buckets and the caller's vote. */
  lemma PositionContents(parse: string -> Result<UserId>, t: Tables, token: Option<string>, urls: seq<string>)
    requires Statuses(parse, t, token, urls).Ok?
    ensures var r := Statuses(parse, t, token, urls).value;
      && |r| == |urls|
      && (forall x :: 0 <= x < |urls| && urls[x] !in t.editorials ==>
            r[x].score == 0 && r[x].scoresByRating == map[] && (r[x].currentVote == Some("none") <==> token.Some?))
      && (forall x :: 0 <= x < |urls| && urls[x] in t.editorials ==>
            var e := t.editorials[urls[x]];
            && r[x].score == BucketTotal(t.voteTemp, e)
            && r[x].scoresByRating == LabelMap(t.voteTemp, e)
            && (token.None? ==> r[x].currentVote.None?)
            && (token.Some? ==> r[x].currentVote == Some(VoteLabel(StoredVote(t.votes, parse(token.value).value, e)))))
  {
  }

  /** Positions are independent: a repeated link gets the same full result
      at every position. */
  lemma RepeatsIndependent(parse: string -> Result<UserId>, t: Tables, token: Option<string>, urls: seq<string>, i: int, j: int)
    requires Statuses(parse, t, token, urls).Ok?
    requires 0 <= i < |urls| && 0 <= j < |urls| && urls[i] == urls[j]
    ensures Statuses(parse, t, token, urls).value[i] == Statuses(parse, t, token, urls).value[j]
  {
  }

  /** The backend answers as the serverless endpoint was evidently meant
      to, given parsers that agree on the user id and the reason. */
  lemma BackendIsIntendedServerless(parse: string -> Result<UserId>, api: VercelApi.Api, t: Tables, token: Option<string>, urls: seq<string>)
    requires token.Some? ==>
      (parse(token.value).Ok? <==> api.parseToken(token.value).Ok?)
      && (parse(token.value).Ok? ==> parse(token.value).value == api.parseToken(token.value).value.userId)
      && (parse(token.value).Err? ==> parse(token.value).reason == api.parseToken(token.value).reason)
    ensures Statuses(parse, t, token, urls) == ServerlessStatuses.StatusesFixed(api, t, token, urls)
  {
  }

  /** Without a token the backend and the serverless endpoint as written
      agree. */
  lemma AgreesWithoutToken(parse: string -> Result<UserId>, api: VercelApi.Api, t: Tables, urls: seq<string>)
    ensures Statuses(parse, t, None, urls) == ServerlessStatuses.Statuses(api, t, None, urls)
  {
  }
}
