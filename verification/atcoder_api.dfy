/**
 * The backend's AtCoder token codec and editorial-link canonicaliser
 * (editorial-voting-backend/src/atcoder_api.rs).
 *
 * Both token kinds carry a SHA-256 hex digest of `hex16(time):id:salt`. The
 * digest function, the salts (environment variables in the service) and the
 * clock are parameters. The functions model the code as written; the
 * `...Fixed` functions are the evidently intended versions: the layouts the
 * token patterns describe, with their round trips proved.
 */
module AtcoderApi {
  import opened Common

  /** `u64`. */
  type U64 = n: nat | n < 0x1_0000_0000_0000_0000

  /** `UNIX_EPOCH.checked_add(Duration::from_secs(t))` fails beyond the
      largest `i64` second count of a Unix `SystemTime`. */
  const MaxSystemSecs: nat := 0x7fff_ffff_ffff_ffff

  /** An affiliation token is accepted for one hour after its time. */
  const AffiliationLifetimeSecs: nat := 60 * 60

  const InvalidFormat := "affiliation_token invalid format"
  const InvalidTime := "affiliation_token invalid time"
  const Expired := "affiliation_token expired"
  const InvalidAffiliationToken := "invalid affiliation_token"
  const InvalidToken := "invalid token"
  /** The message of the panic raised by `Option::unwrap` on `None`. */
  const UnwrapNone := "called `Option::unwrap()` on a `None` value"
  const ParseEmpty := "cannot parse integer from empty string"
  const ParseInvalidDigit := "invalid digit found in string"
  const ParseOverflow := "number too large to fit in target type"

  predicate IsAlnum(c: char) {
    '0' <= c <= '9' || 'A' <= c <= 'Z' || 'a' <= c <= 'z'
  }

  predicate IsLowerHex(c: char) {
    '0' <= c <= '9' || 'a' <= c <= 'f'
  }

  predicate AllAlnum(s: string) {
    forall i :: 0 <= i < |s| ==> IsAlnum(s[i])
  }

  predicate AllLowerHex(s: string) {
    forall i :: 0 <= i < |s| ==> IsLowerHex(s[i])
  }

  /** `ATCODER_ID_PATTERN`, `^[0-9A-Za-z]{3,16}$`, as `validate_atcoder_id`
      uses it. */
  predicate ValidateAtcoderId(id: string) {
    3 <= |id| <= 16 && AllAlnum(id)
  }

  /** `AFFILIATION_TOKEN_PATTERN`, `^[0-9a-f]{16}-[0-9a-f]{64}$`. */
  predicate MatchesAffiliationPattern(s: string) {
    |s| == 81 && AllLowerHex(s[..16]) && s[16] == '-' && AllLowerHex(s[17..])
  }

  /** `TOKEN_PATTERN`, `^[0-9a-f]{16}-[0-9A-Za-z]{3,16}-[0-9a-f]{64}$`. No
      character class admits `-`, so the two dashes sit at fixed offsets from
      either end. */
  predicate MatchesTokenPattern(s: string) {
    && 16 + 1 + 3 + 1 + 64 <= |s| <= 16 + 1 + 16 + 1 + 64
    && AllLowerHex(s[..16]) && s[16] == '-'
    && ValidateAtcoderId(s[17..|s| - 65])
    && s[|s| - 65] == '-' && AllLowerHex(s[|s| - 64..])
  }

  function ZeroDigest(plaintext: string): string {
    seq(64, _ => '0')
  }

  /** `hex::encode(Sha256::digest(..))`: some function whose every value is 64
      lowercase hex digits. Nothing else about SHA-256 is assumed. */
  type Sha256Hex = f: string -> string | forall s :: |f(s)| == 64 && AllLowerHex(f(s))
    witness ZeroDigest

  function HexDigit(d: nat): (c: char)
    requires d < 16
    ensures IsLowerHex(c)
  {
    if d < 10 then (48 + d) as char else (87 + d) as char
  }

  /** The value of one digit accepted by `from_str_radix(_, 16)`. */
  predicate IsHexDigit(c: char) {
    '0' <= c <= '9' || 'a' <= c <= 'f' || 'A' <= c <= 'F'
  }

  function HexValue(c: char): nat
    requires IsHexDigit(c)
  {
    if c <= '9' then c as int - 48
    else if c <= 'F' then c as int - 55
    else c as int - 87
  }

  /** `format!("{n:x}")`: lowercase hex, no padding, "0" for zero. */
  function Hex(n: nat): (s: string)
    ensures |s| >= 1 && AllLowerHex(s)
  {
    if n < 16 then [HexDigit(n)] else Hex(n / 16) + [HexDigit(n % 16)]
  }

  /** The last `width` hex digits of `n`, zero-padded. */
  function HexFixed(n: nat, width: nat): (s: string)
    ensures |s| == width && AllLowerHex(s)
  {
    if width == 0 then [] else HexFixed(n / 16, width - 1) + [HexDigit(n % 16)]
  }

  /** `format!("{t:016x}")` of a `u64`: always exactly 16 digits. */
  function Hex16(t: U64): string {
    HexFixed(t, 16)
  }

  /** The value of a string of hex digits, most significant first. */
  function DigitsValue(s: string): nat
    requires forall i :: 0 <= i < |s| ==> IsHexDigit(s[i])
  {
    if s == [] then 0 else DigitsValue(s[..|s| - 1]) * 16 + HexValue(s[|s| - 1])
  }

  /** The digit scan of `u64::from_str_radix(_, 16)`, left to right: the
      first bad digit or the first overflow, whichever comes first, is the
      error. */
  function ScanDigits(ds: string): Result<U64>
  {
    if ds == [] then Ok(0)
    else
      match ScanDigits(ds[..|ds| - 1])
      case Err(e) => Err(e)
      case Ok(acc) =>
        var c := ds[|ds| - 1];
        if !IsHexDigit(c) then Err(ParseInvalidDigit)
        else if acc * 16 + HexValue(c) >= 0x1_0000_0000_0000_0000 then Err(ParseOverflow)
        else Ok(acc * 16 + HexValue(c))
  }

  /** `u64::from_str_radix(s, 16)`: an optional leading `+`, then at least
      one digit. */
  function FromStrRadix16(s: string): Result<U64>
  {
    if s == [] then Err(ParseEmpty)
    else if s == "+" then Err(ParseInvalidDigit)
    else if s[0] == '+' then ScanDigits(s[1..])
    else ScanDigits(s)
  }

  /** `token_hash`: the plaintext is the 16-digit time, `:`, the id, `:`, the
      salt. */
  function HashPlaintext(t: U64, atcoderId: string, salt: string): string {
    Hex16(t) + [':'] + atcoderId + [':'] + salt
  }

  function TokenHash(sha: Sha256Hex, t: U64, atcoderId: string, salt: string): (h: string)
    ensures |h| == 64 && AllLowerHex(h)
  {
    sha(HashPlaintext(t, atcoderId, salt))
  }

  /** `create_affiliation_token` as written: unpadded hex time, then the hash,
      with no `-` between them. */
  function CreateAffiliationToken(sha: Sha256Hex, salt: string, t: U64, atcoderId: string): string {
    Hex(t) + TokenHash(sha, t, atcoderId, salt)
  }

  /** The evidently intended affiliation token, `hex16(time)-hash`, the shape
      `AFFILIATION_TOKEN_PATTERN` describes. */
  function CreateAffiliationTokenFixed(sha: Sha256Hex, salt: string, t: U64, atcoderId: string): string {
    Hex16(t) + ['-'] + TokenHash(sha, t, atcoderId, salt)
  }

  /** `validate_affiliation_token(atcoder_id, token)` at clock reading `now`
      (seconds since the epoch): format, then time, then age, then hash. */
  function ValidateAffiliationToken(sha: Sha256Hex, salt: string, now: nat, atcoderId: string, token: string): Result<()>
  {
    if !ValidateAtcoderId(atcoderId) || !MatchesAffiliationPattern(token) then Err(InvalidFormat)
    else
      AffiliationSplit(token);
      var parts := Split(token, '-');
      var timeStr, hashOrig := parts[0], parts[1];
      match FromStrRadix16(timeStr)
      case Err(e) => Err(e)
      case Ok(t) =>
        if t > MaxSystemSecs then Err(InvalidTime)
        else if now < t then Err(TimeLaterThanNow)
        else if now - t > AffiliationLifetimeSecs then Err(Expired)
        else if TokenHash(sha, t, atcoderId, salt) != hashOrig then Err(InvalidAffiliationToken)
        else Ok(())
  }

  /** `create_token` as written: unpadded hex time, `-`, the id, `-`, the
      hash. */
  function CreateToken(sha: Sha256Hex, salt: string, t: U64, atcoderId: string): string {
    Hex(t) + ['-'] + atcoderId + ['-'] + TokenHash(sha, t, atcoderId, salt)
  }

  /** The evidently intended session token, the shape `TOKEN_PATTERN`
      describes: the time padded to 16 digits. */
  function CreateTokenFixed(sha: Sha256Hex, salt: string, t: U64, atcoderId: string): string {
    Hex16(t) + ['-'] + atcoderId + ['-'] + TokenHash(sha, t, atcoderId, salt)
  }

  /** What `parse_token` can do: return the AtCoder id, return an error, or
      panic. */
  datatype ParseOutcome = Parsed(atcoderId: string) | Rejected(reason: string) | Panicked(message: string)

  /** `parse_token` as written: it checks the two-segment affiliation pattern,
      then takes three `-`-separated segments, unwrapping the third. */
  function ParseToken(sha: Sha256Hex, salt: string, token: string): ParseOutcome
  {
    if !MatchesAffiliationPattern(token) then Rejected(InvalidFormat)
    else
      var parts := Split(token, '-');
      if |parts| < 3 then Panicked(UnwrapNone)
      else
        var timeStr, atcoderId, hashOrig := parts[0], parts[1], parts[2];
        match FromStrRadix16(timeStr)
        case Err(e) => Rejected(e)
        case Ok(t) =>
          if TokenHash(sha, t, atcoderId, salt) != hashOrig then Rejected(InvalidToken)
          else Parsed(atcoderId)
  }

  /** The evidently intended `parse_token`: check `TOKEN_PATTERN`, then split
      into time, id and hash. */
  function ParseTokenFixed(sha: Sha256Hex, salt: string, token: string): ParseOutcome
  {
    if !MatchesTokenPattern(token) then Rejected(InvalidFormat)
    else
      TokenSplit(token);
      var parts := Split(token, '-');
      var timeStr, atcoderId, hashOrig := parts[0], parts[1], parts[2];
      match FromStrRadix16(timeStr)
      case Err(e) => Rejected(e)
      case Ok(t) =>
        if TokenHash(sha, t, atcoderId, salt) != hashOrig then Rejected(InvalidToken)
        else Parsed(atcoderId)
  }

  /** `canonicalize_editorial_url`: a `/jump?url=X` link gives the decoded X,
      a `/contests/...` path gives the absolute URL, anything else nothing.
      `decode` is `urlencoding::decode`. */
  function CanonicalizeEditorialUrl(decode: string -> string, url: string): Option<string>
  {
    if StartsWith(url, "/jump?url=") then Some(decode(url[10..]))
    else if StartsWith(url, "/contests/") then Some("https://atcoder.jp" + url)
    else None
  }

  // ---------------------------------------------------------------------
  // Hex digits

  lemma LowerHexIsHexDigit(s: string)
    requires AllLowerHex(s)
    ensures forall i :: 0 <= i < |s| ==> IsHexDigit(s[i])
  {
  }

  lemma {:induction false} HexFixedValue(n: nat, width: nat, bound: nat)
    requires bound == Pow16(width) && n < bound
    ensures DigitsValue(HexFixed(n, width)) == n
  {
    if width > 0 {
      var s := HexFixed(n, width);
      HexFixedValue(n / 16, width - 1, Pow16(width - 1));
      assert s[..|s| - 1] == HexFixed(n / 16, width - 1);
      assert HexValue(HexDigit(n % 16)) == n % 16;
    }
  }

  function Pow16(k: nat): (p: nat)
    ensures p >= 1
  {
    if k == 0 then 1 else 16 * Pow16(k - 1)
  }

  lemma Pow16Of16()
    ensures Pow16(15) == 0x1000_0000_0000_0000
    ensures Pow16(16) == 0x1_0000_0000_0000_0000
  {
    assert Pow16(1) == 0x10;
    assert Pow16(2) == 0x100;
    assert Pow16(3) == 0x1000;
    assert Pow16(4) == 0x1_0000;
    assert Pow16(5) == 0x10_0000;
    assert Pow16(6) == 0x100_0000;
    assert Pow16(7) == 0x1000_0000;
    assert Pow16(8) == 0x1_0000_0000;
    assert Pow16(9) == 0x10_0000_0000;
    assert Pow16(10) == 0x100_0000_0000;
    assert Pow16(11) == 0x1000_0000_0000;
    assert Pow16(12) == 0x1_0000_0000_0000;
    assert Pow16(13) == 0x10_0000_0000_0000;
    assert Pow16(14) == 0x100_0000_0000_0000;
  }

  lemma JoinThree(a: string, b: string, c: string, sep: char)
    ensures Join([a, b, c], sep) == a + [sep] + b + [sep] + c
  {
    assert [a, b, c][1..] == [b, c];
    assert [b, c][1..] == [c];
    assert Join([b, c], sep) == b + [sep] + c;
    assert Join([a, b, c], sep) == a + [sep] + (b + [sep] + c);
  }

  lemma {:induction false} DigitsValueBound(s: string)
    requires forall i :: 0 <= i < |s| ==> IsHexDigit(s[i])
    ensures DigitsValue(s) < Pow16(|s|)
  {
    if s != [] {
      DigitsValueBound(s[..|s| - 1]);
    }
  }

  lemma {:induction false} HexValue16(n: nat)
    ensures DigitsValue(Hex(n)) == n
  {
    if n >= 16 {
      var s := Hex(n);
      HexValue16(n / 16);
      assert s[..|s| - 1] == Hex(n / 16);
    }
  }

  /** A digit string that cannot overflow scans to its value. */
  lemma {:induction false} ScanDigitsValue(s: string)
    requires forall i :: 0 <= i < |s| ==> IsHexDigit(s[i])
    requires DigitsValue(s) < 0x1_0000_0000_0000_0000
    ensures ScanDigits(s) == Ok(DigitsValue(s))
  {
    if s != [] {
      var p := s[..|s| - 1];
      assert forall i :: 0 <= i < |p| ==> IsHexDigit(p[i]);
      ScanDigitsValue(p);
    }
  }

  /** The 16-digit time of the hash plaintext reads back as the time. */
  lemma Hex16RoundTrip(t: U64)
    ensures |Hex16(t)| == 16 && AllLowerHex(Hex16(t))
    ensures FromStrRadix16(Hex16(t)) == Ok(t)
  {
    Pow16Of16();
    HexFixedValue(t, 16, Pow16(16));
    LowerHexIsHexDigit(Hex16(t));
    ScanDigitsValue(Hex16(t));
  }

  /** The unpadded hex time reads back as the time too. */
  lemma HexRoundTrip(t: U64)
    ensures FromStrRadix16(Hex(t)) == Ok(t)
  {
    HexValue16(t);
    LowerHexIsHexDigit(Hex(t));
    ScanDigitsValue(Hex(t));
  }

  /** Reading 16 lowercase hex digits and printing them back gives the same
      string. */
  lemma {:induction false} HexFixedOfValue(s: string)
    requires AllLowerHex(s)
    ensures forall i :: 0 <= i < |s| ==> IsHexDigit(s[i])
    ensures HexFixed(DigitsValue(s), |s|) == s
  {
    if s != [] {
      var p := s[..|s| - 1];
      var c := s[|s| - 1];
      HexFixedOfValue(p);
      var v := DigitsValue(s);
      assert v == DigitsValue(p) * 16 + HexValue(c);
      assert v / 16 == DigitsValue(p) && v % 16 == HexValue(c);
      assert HexDigit(HexValue(c)) == c;
      assert p + [c] == s;
    }
  }

  lemma Time16Parses(s: string)
    requires |s| == 16 && AllLowerHex(s)
    ensures forall i :: 0 <= i < |s| ==> IsHexDigit(s[i])
    ensures DigitsValue(s) < 0x1_0000_0000_0000_0000
    ensures FromStrRadix16(s) == Ok(DigitsValue(s))
    ensures Hex16(DigitsValue(s)) == s
  {
    LowerHexIsHexDigit(s);
    DigitsValueBound(s);
    Pow16Of16();
    ScanDigitsValue(s);
    HexFixedOfValue(s);
  }

  // ---------------------------------------------------------------------
  // Splitting tokens

  lemma HexExcludesDash(s: string)
    requires AllLowerHex(s)
    ensures Excludes(s, '-') && Excludes(s, ':')
  {
  }

  lemma AlnumExcludesDash(s: string)
    requires AllAlnum(s)
    ensures Excludes(s, '-') && Excludes(s, ':')
  {
  }

  lemma AffiliationSplit(token: string)
    requires MatchesAffiliationPattern(token)
    ensures Split(token, '-') == [token[..16], token[17..]]
  {
    assert token == token[..16] + ['-'] + token[17..];
    HexExcludesDash(token[..16]);
    HexExcludesDash(token[17..]);
    SplitJoin([token[..16], token[17..]], '-');
  }

  lemma TokenSplit(token: string)
    requires MatchesTokenPattern(token)
    ensures Split(token, '-') == [token[..16], token[17..|token| - 65], token[|token| - 64..]]
  {
    var a, b, c := token[..16], token[17..|token| - 65], token[|token| - 64..];
    CutTwice(token, 16, |token| - 65);
    HexExcludesDash(a);
    AlnumExcludesDash(b);
    HexExcludesDash(c);
    JoinThree(a, b, c, '-');
    SplitJoin([a, b, c], '-');
  }

  // ---------------------------------------------------------------------
  // Properties

  /** `validate_atcoder_id` accepts exactly 3 to 16 ASCII letters and digits:
      in particular an accepted id never contains the `-` and `:` separators
      of the token formats. */
  lemma ValidIdHasNoSeparator(id: string)
    requires ValidateAtcoderId(id)
    ensures Excludes(id, '-') && Excludes(id, ':')
    ensures forall i :: 0 <= i < |id| ==> id[i] != '.' && id[i] != '_'
  {
  }

  /** The hash plaintext determines the time and the id it was built from,
      so distinct (time, id) pairs never hash the same plaintext. */
  lemma PlaintextInjective(t1: U64, id1: string, t2: U64, id2: string, salt: string)
    requires ValidateAtcoderId(id1) && ValidateAtcoderId(id2)
    requires HashPlaintext(t1, id1, salt) == HashPlaintext(t2, id2, salt)
    ensures t1 == t2 && id1 == id2
  {
    var p1, p2 := HashPlaintext(t1, id1, salt), HashPlaintext(t2, id2, salt);
    Hex16RoundTrip(t1);
    Hex16RoundTrip(t2);
    HexExcludesDash(Hex16(t1));
    HexExcludesDash(Hex16(t2));
    assert p1 == Hex16(t1) + [':'] + (id1 + [':'] + salt);
    assert p2 == Hex16(t2) + [':'] + (id2 + [':'] + salt);
    SeparatedUnique(Hex16(t1), id1 + [':'] + salt, Hex16(t2), id2 + [':'] + salt, ':');
    ValidIdHasNoSeparator(id1);
    ValidIdHasNoSeparator(id2);
    SeparatedUnique(id1, salt, id2, salt, ':');
  }

  /** The plaintext is the 16 hex time digits, `:`, the id, `:`, the salt,
      and its first 16 characters read back as the time. */
  lemma PlaintextLayout(t: U64, id: string, salt: string)
    ensures var p := HashPlaintext(t, id, salt);
      && |p| == 16 + 1 + |id| + 1 + |salt|
      && p[16] == ':' && p[17..17 + |id|] == id && p[17 + |id|] == ':'
      && p[18 + |id|..] == salt
      && FromStrRadix16(p[..16]) == Ok(t)
  {
    Hex16RoundTrip(t);
    var p := HashPlaintext(t, id, salt);
    assert p[..16] == Hex16(t);
  }

  /** Finding: `create_affiliation_token` never yields a token that
      `AFFILIATION_TOKEN_PATTERN` accepts: every character is a hex digit, so
      there is no `-` at offset 16. */
  lemma AffiliationTokenNeverMatches(sha: Sha256Hex, salt: string, t: U64, atcoderId: string)
    ensures !MatchesAffiliationPattern(CreateAffiliationToken(sha, salt, t, atcoderId))
  {
    var tok := CreateAffiliationToken(sha, salt, t, atcoderId);
    var h := TokenHash(sha, t, atcoderId, salt);
    assert AllLowerHex(tok) by {
      forall i | 0 <= i < |tok| ensures IsLowerHex(tok[i]) {
        if i < |Hex(t)| { assert tok[i] == Hex(t)[i]; } else { assert tok[i] == h[i - |Hex(t)|]; }
      }
    }
    if |tok| > 16 {
      assert IsLowerHex(tok[16]);
    }
  }

  /** ... so `validate_affiliation_token` rejects every token that
      `create_affiliation_token` issues, at the format check. */
  lemma IssuedAffiliationTokenRejected(sha: Sha256Hex, salt: string, now: nat, t: U64, atcoderId: string)
    ensures ValidateAffiliationToken(sha, salt, now, atcoderId, CreateAffiliationToken(sha, salt, t, atcoderId)) == Err(InvalidFormat)
  {
    AffiliationTokenNeverMatches(sha, salt, t, atcoderId);
  }

  /** A bad id or a token off the pattern fails with the format error, before
      the clock or the hash is consulted. */
  lemma ValidateFormatFirst(sha: Sha256Hex, salt: string, now: nat, atcoderId: string, token: string,
                            sha': Sha256Hex, salt': string, now': nat)
    requires !ValidateAtcoderId(atcoderId) || !MatchesAffiliationPattern(token)
    ensures ValidateAffiliationToken(sha, salt, now, atcoderId, token) == Err(InvalidFormat)
    ensures ValidateAffiliationToken(sha', salt', now', atcoderId, token) == Err(InvalidFormat)
  {
  }

  /** `validate_affiliation_token` succeeds exactly when the id and token are
      well formed, the token's time is at most one hour before `now` and not
      after it, and the hash segment is the recomputed hash. */
  lemma ValidateIff(sha: Sha256Hex, salt: string, now: nat, atcoderId: string, token: string)
    requires ValidateAtcoderId(atcoderId) && MatchesAffiliationPattern(token)
    ensures ValidateAffiliationToken(sha, salt, now, atcoderId, token).Ok? <==>
      exists t: U64 :: Hex16(t) == token[..16]
        && t <= now <= t + AffiliationLifetimeSecs && t <= MaxSystemSecs
        && token[17..] == TokenHash(sha, t, atcoderId, salt)
  {
    Time16Parses(token[..16]);
    AffiliationSplit(token);
    var d: U64 := DigitsValue(token[..16]);
    var ok := d <= now <= d + AffiliationLifetimeSecs && d <= MaxSystemSecs
      && token[17..] == TokenHash(sha, d, atcoderId, salt);
    assert ValidateAffiliationToken(sha, salt, now, atcoderId, token).Ok? <==> ok;
    forall t: U64 | Hex16(t) == token[..16] ensures t == d {
      Hex16RoundTrip(t);
    }
  }

  /** Tokens that pass validation are exactly the intended affiliation tokens
      for that id, issued within the last hour. */
  lemma ValidateSound(sha: Sha256Hex, salt: string, now: nat, atcoderId: string, token: string)
    requires ValidateAffiliationToken(sha, salt, now, atcoderId, token).Ok?
    ensures exists t: U64 :: (t <= now <= t + AffiliationLifetimeSecs
      && token == CreateAffiliationTokenFixed(sha, salt, t, atcoderId))
  {
    Time16Parses(token[..16]);
    AffiliationSplit(token);
    var t: U64 := DigitsValue(token[..16]);
    assert token == token[..16] + ['-'] + token[17..];
    assert token == CreateAffiliationTokenFixed(sha, salt, t, atcoderId);
  }

  /** The corrected affiliation token validates for its own id from its time
      up to one hour later. */
  lemma ValidateFixedAccepts(sha: Sha256Hex, salt: string, now: nat, t: U64, atcoderId: string)
    requires ValidateAtcoderId(atcoderId)
    requires t <= MaxSystemSecs && t <= now <= t + AffiliationLifetimeSecs
    ensures ValidateAffiliationToken(sha, salt, now, atcoderId, CreateAffiliationTokenFixed(sha, salt, t, atcoderId)) == Ok(())
  {
    var tok := CreateAffiliationTokenFixed(sha, salt, t, atcoderId);
    Hex16RoundTrip(t);
    assert tok[..16] == Hex16(t) && tok[17..] == TokenHash(sha, t, atcoderId, salt);
    AffiliationSplit(tok);
  }

  /** The expiry boundary: a second before the hour is up the token is
      accepted, a second after it it has expired; a time in the future is an
      error too. */
  lemma ValidateExpiry(sha: Sha256Hex, salt: string, t: U64, atcoderId: string)
    requires ValidateAtcoderId(atcoderId) && t <= MaxSystemSecs
    ensures ValidateAffiliationToken(sha, salt, t + 3599, atcoderId, CreateAffiliationTokenFixed(sha, salt, t, atcoderId)) == Ok(())
    ensures ValidateAffiliationToken(sha, salt, t + 3601, atcoderId, CreateAffiliationTokenFixed(sha, salt, t, atcoderId)) == Err(Expired)
    ensures t > 0 ==> ValidateAffiliationToken(sha, salt, t - 1, atcoderId, CreateAffiliationTokenFixed(sha, salt, t, atcoderId)) == Err(TimeLaterThanNow)
  {
    ValidateFixedAccepts(sha, salt, t + 3599, t, atcoderId);
    var tok := CreateAffiliationTokenFixed(sha, salt, t, atcoderId);
    Hex16RoundTrip(t);
    assert tok[..16] == Hex16(t);
    AffiliationSplit(tok);
  }

  /** Replacing the hash segment by any other string is rejected. */
  lemma ValidateTamper(sha: Sha256Hex, salt: string, now: nat, t: U64, atcoderId: string, h: string)
    requires h != TokenHash(sha, t, atcoderId, salt)
    ensures ValidateAffiliationToken(sha, salt, now, atcoderId, Hex16(t) + ['-'] + h).Err?
  {
    var tok := Hex16(t) + ['-'] + h;
    if ValidateAtcoderId(atcoderId) && MatchesAffiliationPattern(tok) {
      Hex16RoundTrip(t);
      assert tok[..16] == Hex16(t) && tok[17..] == h;
      AffiliationSplit(tok);
    }
  }

  /** `create_token` is the unpadded hex time, the id and the hash, joined by
      `-`; for a valid id splitting at `-` gives the three back. */
  lemma CreateTokenSegments(sha: Sha256Hex, salt: string, t: U64, atcoderId: string)
    requires ValidateAtcoderId(atcoderId)
    ensures Split(CreateToken(sha, salt, t, atcoderId), '-') == [Hex(t), atcoderId, TokenHash(sha, t, atcoderId, salt)]
    ensures FromStrRadix16(Split(CreateToken(sha, salt, t, atcoderId), '-')[0]) == Ok(t)
  {
    var h := TokenHash(sha, t, atcoderId, salt);
    HexExcludesDash(Hex(t));
    HexExcludesDash(h);
    ValidIdHasNoSeparator(atcoderId);
    JoinThree(Hex(t), atcoderId, h, '-');
    SplitJoin([Hex(t), atcoderId, h], '-');
    HexRoundTrip(t);
  }

  /** Finding: `parse_token` as written never returns an id. A token off the
      affiliation pattern is rejected, and one on it has a single `-`, so the
      third `split.next().unwrap()` panics. */
  lemma ParseTokenNeverParses(sha: Sha256Hex, salt: string, token: string)
    ensures !ParseToken(sha, salt, token).Parsed?
    ensures MatchesAffiliationPattern(token) <==> ParseToken(sha, salt, token) == Panicked(UnwrapNone)
  {
    if MatchesAffiliationPattern(token) {
      AffiliationSplit(token);
    }
  }

  /** In particular no session token that `create_token` issues is accepted:
      it has two dashes, so it fails the affiliation pattern. */
  lemma IssuedTokenRejected(sha: Sha256Hex, salt: string, t: U64, atcoderId: string)
    requires ValidateAtcoderId(atcoderId)
    ensures ParseToken(sha, salt, CreateToken(sha, salt, t, atcoderId)) == Rejected(InvalidFormat)
  {
    var tok := CreateToken(sha, salt, t, atcoderId);
    CreateTokenSegments(sha, salt, t, atcoderId);
    if MatchesAffiliationPattern(tok) {
      AffiliationSplit(tok);
      assert false;
    }
  }

  /** Every realistic time (below 16^15 seconds) has fewer than 16 hex digits,
      so `create_token` does not even produce the `TOKEN_PATTERN` shape. */
  lemma CreateTokenOffPattern(sha: Sha256Hex, salt: string, t: U64, atcoderId: string)
    requires ValidateAtcoderId(atcoderId) && t < Pow16(15)
    ensures !MatchesTokenPattern(CreateToken(sha, salt, t, atcoderId))
  {
    HexShort(t, 15);
    Pow16Of16();
    var tok := CreateToken(sha, salt, t, atcoderId);
    var h := Hex(t);
    assert tok[|h|] == '-';
    assert |tok| >= 16 ==> tok[..16][|h|] == '-';
  }

  lemma {:induction false} HexShort(n: nat, k: nat)
    requires n < Pow16(k)
    ensures |Hex(n)| <= if k == 0 then 1 else k
  {
    if n >= 16 {
      HexShort(n / 16, k - 1);
    }
  }

  /** The corrected codec round-trips: parsing an issued token gives its id
      back. */
  lemma ParseTokenFixedRoundTrip(sha: Sha256Hex, salt: string, t: U64, atcoderId: string)
    requires ValidateAtcoderId(atcoderId)
    ensures ParseTokenFixed(sha, salt, CreateTokenFixed(sha, salt, t, atcoderId)) == Parsed(atcoderId)
  {
    var tok := CreateTokenFixed(sha, salt, t, atcoderId);
    FixedTokenLayout(sha, salt, t, atcoderId);
    TokenSplit(tok);
    Hex16RoundTrip(t);
  }

  /** Where the segments of the corrected session token sit. */
  lemma FixedTokenLayout(sha: Sha256Hex, salt: string, t: U64, atcoderId: string)
    requires ValidateAtcoderId(atcoderId)
    ensures var tok := CreateTokenFixed(sha, salt, t, atcoderId);
      && MatchesTokenPattern(tok)
      && tok[..16] == Hex16(t)
      && tok[17..|tok| - 65] == atcoderId
      && tok[|tok| - 64..] == TokenHash(sha, t, atcoderId, salt)
  {
    var tok := CreateTokenFixed(sha, salt, t, atcoderId);
    var h := TokenHash(sha, t, atcoderId, salt);
    Hex16RoundTrip(t);
    assert tok[..16] == Hex16(t);
    assert tok[17..|tok| - 65] == atcoderId;
    assert tok[|tok| - 64..] == h;
  }

  /** ... and only issued tokens parse: a parsed token is `CreateTokenFixed`
      of its id at some time. */
  lemma ParseTokenFixedSound(sha: Sha256Hex, salt: string, token: string, atcoderId: string)
    requires ParseTokenFixed(sha, salt, token) == Parsed(atcoderId)
    ensures ValidateAtcoderId(atcoderId)
    ensures exists t: U64 :: token == CreateTokenFixed(sha, salt, t, atcoderId)
  {
    assert MatchesTokenPattern(token);
    var a := token[..16];
    TokenSplit(token);
    Time16Parses(a);
    var t: U64 := DigitsValue(a);
    assert FromStrRadix16(a) == Ok(t);
    TokenFromSegments(sha, salt, token, t, atcoderId);
  }

  lemma TokenFromSegments(sha: Sha256Hex, salt: string, token: string, t: U64, atcoderId: string)
    requires MatchesTokenPattern(token)
    requires token[..16] == Hex16(t) && token[17..|token| - 65] == atcoderId
    requires token[|token| - 64..] == TokenHash(sha, t, atcoderId, salt)
    ensures ValidateAtcoderId(atcoderId)
    ensures token == CreateTokenFixed(sha, salt, t, atcoderId)
  {
    CutTwice(token, 16, |token| - 65);
  }

  /** Distinct contest paths give distinct catalogue keys, and every key a
      contest path gives is an absolute AtCoder contest URL. */
  lemma CanonicalContestInjective(decode: string -> string, u1: string, u2: string)
    requires StartsWith(u1, "/contests/") && StartsWith(u2, "/contests/")
    ensures CanonicalizeEditorialUrl(decode, u1).Some?
    ensures StartsWith(CanonicalizeEditorialUrl(decode, u1).value, "https://atcoder.jp/contests/")
    ensures CanonicalizeEditorialUrl(decode, u1) == CanonicalizeEditorialUrl(decode, u2) ==> u1 == u2
  {
    var r1, r2 := "https://atcoder.jp" + u1, "https://atcoder.jp" + u2;
    assert u1[0] == '/' != 'j' && u1[1] == 'c';
    assert u2[1] == 'c';
    assert r1[..28] == "https://atcoder.jp" + u1[..10];
    assert r1[18..] == u1 && r2[18..] == u2;
  }

  /** An absolute URL is never itself a canonicalisable link: canonical
      contest URLs do not canonicalise again. */
  lemma CanonicalNotRecanonicalised(decode: string -> string, url: string)
    requires StartsWith(url, "/contests/")
    ensures CanonicalizeEditorialUrl(decode, "https://atcoder.jp" + url).None?
  {
    var r := "https://atcoder.jp" + url;
    assert r[0] == 'h';
  }
}
