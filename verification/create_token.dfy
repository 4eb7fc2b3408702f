/**
 * The serverless `create_token` endpoint: check the id, validate the
 * submitted affiliation token, compare it with the affiliation scraped from
 * the user's AtCoder page, then get or insert the user row and issue a
 * session token built from the request's start time, the id and the user
 * id.
 *
 * The scraper is a parameter (`scrape(id)` is the page's affiliation or a
 * reason); `time` is the clock read when the request starts and
 * `validateNow` the one `validate_affiliation_token` reads.
 */
module ServerlessCreateToken {
  import opened Common
  import opened Tables
  import opened VercelApi

  const InvalidAtcoderId := "invalid atcoder_id format"
  const NotMatched := "affiliation token not matched"

  /** The checks before the database is touched, in order. */
  function Gate(api: Api, validateNow: nat, scrape: string -> Result<string>,
                atcoderId: string, affiliationToken: string): Result<()>
  {
    if !api.validateAtcoderId(atcoderId) then Err(InvalidAtcoderId)
    else match api.validateAffiliationToken(atcoderId, affiliationToken, validateNow)
      case Err(reason) => Err(reason)
      case Ok(_) =>
        match scrape(atcoderId)
        case Err(reason) => Err(reason)
        case Ok(scraped) => if scraped != affiliationToken then Err(NotMatched) else Ok(())
  }

  /** The tables after the call and its reply. */
  ghost function IssueToken(api: Api, t: Tables, time: nat, validateNow: nat, scrape: string -> Result<string>,
                            atcoderId: string, affiliationToken: string): (Tables, Result<string>)
  {
    match Gate(api, validateNow, scrape, atcoderId, affiliationToken)
    case Err(reason) => (t, Err(reason))
    case Ok(_) =>
      var (t', user) := WithUser(t, atcoderId);
      (t', api.createToken(time, atcoderId, user))
  }

  /** `proc`. */
  method CreateToken(db: Store, api: Api, time: nat, validateNow: nat, scrape: string -> Result<string>,
                     atcoderId: string, affiliationToken: string) returns (r: Result<string>)
    requires db.Valid()
    modifies db
    ensures db.Valid()
    ensures (db.Snapshot(), r) == IssueToken(api, old(db.Snapshot()), time, validateNow, scrape, atcoderId, affiliationToken)
  {
    if !api.validateAtcoderId(atcoderId) {
      return Err(InvalidAtcoderId);
    }
    var valid := api.validateAffiliationToken(atcoderId, affiliationToken, validateNow);
    if valid.Err? {
      return Err(valid.reason);
    }
    var scraped := scrape(atcoderId);
    if scraped.Err? {
      return Err(scraped.reason);
    }
    if scraped.value != affiliationToken {
      return Err(NotMatched);
    }
    var user := db.GetOrInsertUser(atcoderId);
    r := api.createToken(time, atcoderId, user);
  }

  // ---------------------------------------------------------------------
  // Properties

  /** A bad id is refused before validation or scraping; a failed validation
      is refused before scraping. */
  lemma ChecksInOrder(api: Api, validateNow: nat, scrape: string -> Result<string>, scrape': string -> Result<string>,
                      atcoderId: string, affiliationToken: string)
    ensures !api.validateAtcoderId(atcoderId) ==>
      Gate(api, validateNow, scrape, atcoderId, affiliationToken) == Err(InvalidAtcoderId)
    ensures api.validateAtcoderId(atcoderId) && api.validateAffiliationToken(atcoderId, affiliationToken, validateNow).Err? ==>
      Gate(api, validateNow, scrape, atcoderId, affiliationToken) == Err(api.validateAffiliationToken(atcoderId, affiliationToken, validateNow).reason)
    ensures (!api.validateAtcoderId(atcoderId) || api.validateAffiliationToken(atcoderId, affiliationToken, validateNow).Err?) ==>
      Gate(api, validateNow, scrape, atcoderId, affiliationToken) == Gate(api, validateNow, scrape', atcoderId, affiliationToken)
  {
  }

  /** The gate passes exactly when the id is valid, the token validates and
      the scraped affiliation is exactly the submitted token. */
  lemma GateIff(api: Api, validateNow: nat, scrape: string -> Result<string>, atcoderId: string, affiliationToken: string)
    ensures Gate(api, validateNow, scrape, atcoderId, affiliationToken).Ok? <==>
      && api.validateAtcoderId(atcoderId)
      && api.validateAffiliationToken(atcoderId, affiliationToken, validateNow).Ok?
      && scrape(atcoderId) == Ok(affiliationToken)
    ensures (api.validateAtcoderId(atcoderId) && api.validateAffiliationToken(atcoderId, affiliationToken, validateNow).Ok?
      && scrape(atcoderId).Ok? && scrape(atcoderId).value != affiliationToken) ==>
      Gate(api, validateNow, scrape, atcoderId, affiliationToken) == Err(NotMatched)
  {
  }

  /** A refused request writes no row. */
  lemma RefusalWritesNothing(api: Api, t: Tables, time: nat, validateNow: nat, scrape: string -> Result<string>,
                             atcoderId: string, affiliationToken: string)
    requires Gate(api, validateNow, scrape, atcoderId, affiliationToken).Err?
    ensures IssueToken(api, t, time, validateNow, scrape, atcoderId, affiliationToken)
      == (t, Err(Gate(api, validateNow, scrape, atcoderId, affiliationToken).reason))
  {
  }

  /** An accepted request issues the token for the request's start time, the
      id and the id's user row, which is the only row with that id; no other
      row changes and at most one is added. */
  lemma AcceptedIssues(api: Api, t: Tables, time: nat, validateNow: nat, scrape: string -> Result<string>,
                       atcoderId: string, affiliationToken: string)
    requires WellFormed(t)
    requires Gate(api, validateNow, scrape, atcoderId, affiliationToken).Ok?
    ensures var (t', r) := IssueToken(api, t, time, validateNow, scrape, atcoderId, affiliationToken);
      && HasUser(t', atcoderId)
      && (forall u :: u in t'.users && t'.users[u].atcoderId == atcoderId ==> r == api.createToken(time, atcoderId, u))
      && (forall v :: v in t.users ==> v in t'.users && t'.users[v] == t.users[v])
      && |t'.users.Keys - t.users.Keys| <= 1
      && WellFormed(t')
  {
    WithUserUnique(t, atcoderId);
    WithUserWellFormed(t, atcoderId);
  }

  /** Repeating an accepted request changes nothing more and yields a token
      for the same user id. */
  lemma RepeatSameUser(api: Api, t: Tables, time: nat, time': nat, validateNow: nat, validateNow': nat,
                       scrape: string -> Result<string>, atcoderId: string, affiliationToken: string)
    requires WellFormed(t)
    requires Gate(api, validateNow, scrape, atcoderId, affiliationToken).Ok?
    requires Gate(api, validateNow', scrape, atcoderId, affiliationToken).Ok?
    ensures var (t1, _) := IssueToken(api, t, time, validateNow, scrape, atcoderId, affiliationToken);
      var (t2, r2) := IssueToken(api, t1, time', validateNow', scrape, atcoderId, affiliationToken);
      t2 == t1 && r2 == api.createToken(time', atcoderId, WithUser(t, atcoderId).1)
  {
    WithUserIdempotent(t, atcoderId);
  }
}
