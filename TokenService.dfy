/** The token and expiry policy: a random 32-byte token written in upper-case
    hexadecimal, a presence check, two expiry horizons (24 hours for
    verification tokens, 15 minutes for login tokens) and a strict expiry test.
    The clock and the random source are parameters: `now` is in seconds, the
    random buffer is the 32 bytes the generator filled. */
module TokenService {
  import opened Common

  newtype byte = x: int | 0 <= x < 256

  const TokenBytes := 32
  const SecondsPerMinute := 60
  const SecondsPerHour := 3600
  const VerificationTtl := 24 * SecondsPerHour
  const LoginTtl := 15 * SecondsPerMinute

  predicate IsUpperHexDigit(c: char) {
    ('0' <= c <= '9') || ('A' <= c <= 'F')
  }

  function HexDigit(n: int): (c: char)
    requires 0 <= n < 16
    ensures IsUpperHexDigit(c)
  {
    if n < 10 then ('0' as int + n) as char else ('A' as int + n - 10) as char
  }

  function HexValue(c: char): (n: int)
    requires IsUpperHexDigit(c)
    ensures 0 <= n < 16
  {
    if c <= '9' then c as int - '0' as int else c as int - 'A' as int + 10
  }

  lemma HexDigitValue(n: int)
    requires 0 <= n < 16
    ensures HexValue(HexDigit(n)) == n
  {
  }

  /** `Convert.ToHexString`: two upper-case hexadecimal digits per byte, high
      nibble first. */
  function ToHexString(bytes: seq<byte>): (r: string)
    ensures |r| == 2 * |bytes|
    ensures forall i :: 0 <= i < |r| ==> IsUpperHexDigit(r[i])
  {
    if bytes == [] then []
    else [HexDigit(bytes[0] as int / 16), HexDigit(bytes[0] as int % 16)] + ToHexString(bytes[1..])
  }

  /** Reads a string of hexadecimal digit pairs back into bytes. */
  function FromHexString(s: string): (r: seq<byte>)
    requires |s| % 2 == 0
    requires forall i :: 0 <= i < |s| ==> IsUpperHexDigit(s[i])
    ensures |r| == |s| / 2
  {
    if s == [] then []
    else [(HexValue(s[0]) * 16 + HexValue(s[1])) as byte] + FromHexString(s[2..])
  }

  /** Decoding the hexadecimal text gives back the bytes. */
  lemma {:induction false} HexRoundTrip(bytes: seq<byte>)
    ensures FromHexString(ToHexString(bytes)) == bytes
  {
    if bytes != [] {
      var b := bytes[0] as int;
      var s := ToHexString(bytes);
      HexDigitValue(b / 16);
      HexDigitValue(b % 16);
      assert s[2..] == ToHexString(bytes[1..]);
      HexRoundTrip(bytes[1..]);
      assert FromHexString(s) == [(b / 16 * 16 + b % 16) as byte] + bytes[1..];
    }
  }

  /** Distinct random buffers give distinct tokens. */
  lemma HexInjective(a: seq<byte>, b: seq<byte>)
    requires ToHexString(a) == ToHexString(b)
    ensures a == b
  {
    HexRoundTrip(a);
    HexRoundTrip(b);
  }

  /** `GenerateToken`: the random buffer written in hexadecimal. */
  function GenerateToken(randomBytes: seq<byte>): (token: string)
    requires |randomBytes| == TokenBytes
    ensures |token| == 64
    ensures forall i :: 0 <= i < |token| ==> IsUpperHexDigit(token[i])
    ensures FromHexString(token) == randomBytes
  {
    HexRoundTrip(randomBytes);
    ToHexString(randomBytes)
  }

  /** `ValidateToken`: a token is acceptable when it is present and non-empty. */
  function ValidateToken(token: Option<string>): (valid: bool)
    ensures valid <==> token.Some? && token.value != []
  {
    match token
    case None => false
    case Some(t) => |t| > 0
  }

  /** `GetExpirationTime`: 24 hours after `now`. */
  function GetExpirationTime(now: int): (expires: int)
    ensures expires > now
  {
    now + VerificationTtl
  }

  /** `GetExpirationTimeLogin`: 15 minutes after `now`. */
  function GetExpirationTimeLogin(now: int): (expires: int)
    ensures expires > now
  {
    now + LoginTtl
  }

  /** `IsTokenExpired`: the clock has passed the expiry instant; at the
      instant itself the token is still live. */
  predicate IsTokenExpired(now: int, expirationTime: int): (expired: bool)
    ensures expired <==> expirationTime < now
    ensures now == expirationTime ==> !expired
  {
    now > expirationTime
  }

  /** For the same clock reading the login horizon ends first, and the two
      horizons are exactly 24 hours and 15 minutes long. */
  lemma LoginExpiresFirst(now: int)
    ensures GetExpirationTimeLogin(now) < GetExpirationTime(now)
    ensures GetExpirationTime(now) - now == 86400
    ensures GetExpirationTimeLogin(now) - now == 900
  {
  }

  /** A token is live at the instant it is issued and at its expiry instant,
      and expired one second later; once expired it stays expired. */
  lemma ExpiryIsStrict(now: int, expires: int, later: int)
    ensures !IsTokenExpired(now, GetExpirationTime(now))
    ensures !IsTokenExpired(now, GetExpirationTimeLogin(now))
    ensures !IsTokenExpired(expires, expires) && IsTokenExpired(expires + 1, expires)
    ensures IsTokenExpired(now, expires) && now <= later ==> IsTokenExpired(later, expires)
  {
  }
}
