/**
 * The standalone backend's `create-token` route: validate the submitted
 * affiliation token, scrape the affiliation shown on the user's AtCoder
 * page, and issue a session token when the two are the same string.
 *
 * The scraper is a parameter (`scrape(id)` is the page's affiliation or a
 * reason), and so are the two clock readings: `validateNow` inside
 * `validate_affiliation_token`, `issueNow` when the token is built. The two
 * salts are separate parameters: `affiliationSalt` is
 * `EDITORIAL_VOTING_AFFILIATION_TOKEN_SALT`, which validation reads, and
 * `tokenSalt` is `EDITORIAL_VOTING_TOKEN_SALT`, which `create_token` and
 * `parse_token` read.
 */
module BackendCreateToken {
  import opened Common
  import opened AtcoderApi

  const NotMatched := "affiliation_token not matched"

  /** The route's reply: the issued token, or the reason of the refusal. */
  function Route(sha: Sha256Hex, affiliationSalt: string, tokenSalt: string, validateNow: nat, issueNow: U64,
                 scrape: string -> Result<string>, atcoderId: string, affiliationToken: string): Result<string>
  {
    match ValidateAffiliationToken(sha, affiliationSalt, validateNow, atcoderId, affiliationToken)
    case Err(reason) => Err(reason)
    case Ok(_) =>
      match scrape(atcoderId)
      case Err(reason) => Err(reason)
      case Ok(scraped) =>
        if affiliationToken == scraped then Ok(CreateToken(sha, tokenSalt, issueNow, atcoderId))
        else Err(NotMatched)
  }

  /** The route with the intended session-token layout. */
  function RouteFixed(sha: Sha256Hex, affiliationSalt: string, tokenSalt: string, validateNow: nat, issueNow: U64,
                      scrape: string -> Result<string>, atcoderId: string, affiliationToken: string): Result<string>
  {
    match ValidateAffiliationToken(sha, affiliationSalt, validateNow, atcoderId, affiliationToken)
    case Err(reason) => Err(reason)
    case Ok(_) =>
      match scrape(atcoderId)
      case Err(reason) => Err(reason)
      case Ok(scraped) =>
        if affiliationToken == scraped then Ok(CreateTokenFixed(sha, tokenSalt, issueNow, atcoderId))
        else Err(NotMatched)
  }

  // ---------------------------------------------------------------------
  // Properties

  /** A failed validation, a bad id included, is returned as it is, and the
      scraper plays no part. */
  lemma ValidationFirst(sha: Sha256Hex, affiliationSalt: string, tokenSalt: string, validateNow: nat, issueNow: U64,
                        scrape: string -> Result<string>, scrape': string -> Result<string>,
                        atcoderId: string, affiliationToken: string)
    requires ValidateAffiliationToken(sha, affiliationSalt, validateNow, atcoderId, affiliationToken).Err?
    ensures Route(sha, affiliationSalt, tokenSalt, validateNow, issueNow, scrape, atcoderId, affiliationToken)
      == Err(ValidateAffiliationToken(sha, affiliationSalt, validateNow, atcoderId, affiliationToken).reason)
    ensures Route(sha, affiliationSalt, tokenSalt, validateNow, issueNow, scrape, atcoderId, affiliationToken)
      == Route(sha, affiliationSalt, tokenSalt, validateNow, issueNow, scrape', atcoderId, affiliationToken)
    ensures !ValidateAtcoderId(atcoderId) ==>
      Route(sha, affiliationSalt, tokenSalt, validateNow, issueNow, scrape, atcoderId, affiliationToken) == Err(InvalidFormat)
  {
  }

  /** The outcome after validation: a scrape failure is returned, a token is
      issued exactly when the submitted token equals the scraped affiliation,
      and a mismatch gives `affiliation_token not matched`. */
  lemma AfterValidation(sha: Sha256Hex, affiliationSalt: string, tokenSalt: string, validateNow: nat, issueNow: U64,
                        scrape: string -> Result<string>, atcoderId: string, affiliationToken: string)
    requires ValidateAffiliationToken(sha, affiliationSalt, validateNow, atcoderId, affiliationToken).Ok?
    ensures var r := Route(sha, affiliationSalt, tokenSalt, validateNow, issueNow, scrape, atcoderId, affiliationToken);
      && (scrape(atcoderId).Err? ==> r == Err(scrape(atcoderId).reason))
      && (r.Ok? <==> scrape(atcoderId) == Ok(affiliationToken))
      && (r.Ok? ==> r.value == CreateToken(sha, tokenSalt, issueNow, atcoderId))
      && (scrape(atcoderId).Ok? && scrape(atcoderId).value != affiliationToken ==> r == Err(NotMatched))
  {
  }

  /** Finding: an affiliation token made by `create_affiliation_token` is
      refused at the format check, so no token is ever issued for it. */
  lemma IssuedAffiliationTokenRefused(sha: Sha256Hex, affiliationSalt: string, tokenSalt: string, validateNow: nat, issueNow: U64, t: U64,
                                      scrape: string -> Result<string>, atcoderId: string)
    ensures Route(sha, affiliationSalt, tokenSalt, validateNow, issueNow, scrape, atcoderId, CreateAffiliationToken(sha, affiliationSalt, t, atcoderId))
      == Err(InvalidFormat)
  {
    IssuedAffiliationTokenRejected(sha, affiliationSalt, validateNow, t, atcoderId);
  }

  /** Finding: every session token the route issues is refused by
      `parse_token` as written. */
  lemma IssuedTokenUnusable(sha: Sha256Hex, affiliationSalt: string, tokenSalt: string, validateNow: nat, issueNow: U64,
                            scrape: string -> Result<string>, atcoderId: string, affiliationToken: string)
    requires Route(sha, affiliationSalt, tokenSalt, validateNow, issueNow, scrape, atcoderId, affiliationToken).Ok?
    ensures ParseToken(sha, tokenSalt, Route(sha, affiliationSalt, tokenSalt, validateNow, issueNow, scrape, atcoderId, affiliationToken).value)
      == Rejected(InvalidFormat)
  {
    IssuedTokenRejected(sha, tokenSalt, issueNow, atcoderId);
  }

  /** With the intended layouts, the token issued for an affiliation token
      made within the hour parses back to the submitted id. */
  lemma FixedRoundTrip(sha: Sha256Hex, affiliationSalt: string, tokenSalt: string, validateNow: nat, issueNow: U64, t: U64,
                       scrape: string -> Result<string>, atcoderId: string)
    requires ValidateAtcoderId(atcoderId) && t <= MaxSystemSecs && t <= validateNow <= t + AffiliationLifetimeSecs
    requires scrape(atcoderId) == Ok(CreateAffiliationTokenFixed(sha, affiliationSalt, t, atcoderId))
    ensures var r := RouteFixed(sha, affiliationSalt, tokenSalt, validateNow, issueNow, scrape, atcoderId, CreateAffiliationTokenFixed(sha, affiliationSalt, t, atcoderId));
      r.Ok? && ParseTokenFixed(sha, tokenSalt, r.value) == Parsed(atcoderId)
  {
    ValidateFixedAccepts(sha, affiliationSalt, validateNow, t, atcoderId);
    ParseTokenFixedRoundTrip(sha, tokenSalt, issueNow, atcoderId);
  }
}
