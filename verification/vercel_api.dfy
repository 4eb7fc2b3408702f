/**
 * The serverless crate's own `atcoder_api` helpers, whose source is not part
 * of this model. The handlers only rely on what their call sites show, so
 * each helper is an uninterpreted function field of `Api`:
 *   - `parse_token(token)` yields the caller's AtCoder id and user id, or an
 *     error that the handler returns;
 *   - `canonicalize_editorial_url(url)` yields the catalogue key of an
 *     editorial link, or nothing;
 *   - `validate_atcoder_id(id)` is a yes/no check;
 *   - `validate_affiliation_token(id, token)` succeeds or fails with a
 *     reason, and reads the clock (passed as `now`);
 *   - `create_token(time, id, user_id)` yields a session token or fails.
 */
module VercelApi {
  import opened Common
  import opened Tables

  datatype UserToken = UserToken(atcoderId: string, userId: UserId)

  datatype Api = Api(
    parseToken: string -> Result<UserToken>,
    canonicalizeEditorialUrl: string -> Option<string>,
    validateAtcoderId: string -> bool,
    validateAffiliationToken: (string, string, nat) -> Result<()>,
    createToken: (nat, string, UserId) -> Result<string>)
}
