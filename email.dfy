/** dmutils/email.py: the pure pre-step of `send_email` (recipients, Reply-To,
    Source line), the token codec `generate_token`/`decode_token` framed as
    `salt ‖ NUL ‖ json(data)` inside a Fernet token, `parse_fernet_timestamp`,
    and the two redemption policies built on them (password reset, invitation).
    Secrets and salts are explicit parameters (`Config`), the clock is the
    parameter `now` (whole seconds since the epoch), and the data API client
    is the function `passwordChangedAt`. */
module Email {
  import opened Common
  import opened Json
  import Base64Url
  import Fernet

  const OneDayInSeconds: nat := 86400
  const InvitationMaxAge: nat := 7 * OneDayInSeconds
  const Nul: byte := 0
  const MicrosecondsPerSecond: nat := 1_000_000

  /** Seconds from 1970-01-01 to 9999-12-31 23:59:59, the last `datetime`. */
  const MaxDatetimeSeconds: nat := 253_402_300_799

  // ---------------------------------------------------------------- send_email

  /** `to_email_addresses`: one address string, or a list of addresses. */
  datatype Recipients = Single(address: string) | Several(addresses: seq<string>)

  /** The SES `send_email` call, without the I/O. */
  datatype SesRequest = SesRequest(
    source: string,
    toAddresses: seq<string>,
    subject: string,
    htmlBody: string,
    replyToAddresses: seq<string>)

  /** A single address becomes a one-element list; a list passes unchanged. */
  function ToAddresses(to: Recipients): (r: seq<string>)
    ensures to.Single? ==> r == [to.address]
    ensures to.Several? ==> r == to.addresses
  {
    match to
    case Single(a) => [a]
    case Several(xs) => xs
  }

  /** `[reply_to or from_email]`: an absent or empty Reply-To falls back to the sender. */
  function ReplyToAddresses(replyTo: Option<string>, fromEmail: string): (r: seq<string>)
    ensures |r| == 1
    ensures replyTo.Some? && replyTo.value != "" ==> r[0] == replyTo.value
    ensures replyTo.None? || replyTo.value == "" ==> r[0] == fromEmail
  {
    match replyTo
    case Some(a) => if a != "" then [a] else [fromEmail]
    case None => [fromEmail]
  }

  /** `"{} <{}>".format(from_name, from_email)`. */
  function SourceLine(fromName: string, fromEmail: string): (r: string)
    ensures StartsWith(r, fromName + " <") && EndsWith(r, fromEmail + ">")
    ensures |r| == |fromName| + |fromEmail| + 3
  {
    fromName + " <" + fromEmail + ">"
  }

  function SesRequestFor(to: Recipients, body: string, subject: string, fromEmail: string,
                         fromName: string, replyTo: Option<string>): (r: SesRequest)
    ensures r.toAddresses == ToAddresses(to)
    ensures r.replyToAddresses == ReplyToAddresses(replyTo, fromEmail)
    ensures r.source == SourceLine(fromName, fromEmail)
    ensures r.subject == subject && r.htmlBody == body
  {
    SesRequest(SourceLine(fromName, fromEmail), ToAddresses(to), subject, body,
               ReplyToAddresses(replyTo, fromEmail))
  }

  lemma SesRequestExamples()
    ensures SesRequestFor(Single("email_address"), "body", "subject", "from_email", "from_name", None)
         == SesRequest("from_name <from_email>", ["email_address"], "subject", "body", ["from_email"])
    ensures SesRequestFor(Single("email_address"), "body", "subject", "from_email", "from_name", Some("reply_address"))
         == SesRequest("from_name <from_email>", ["email_address"], "subject", "body", ["reply_address"])
    ensures SesRequestFor(Several(["email_address1", "email_address2"]), "body", "subject", "from_email", "from_name", None).toAddresses
         == ["email_address1", "email_address2"]
  {
  }

  // ---------------------------------------------------------------- framing

  /** The plaintext `b'{}\0{}'.format(salt, json_data)`. */
  function Frame(salt: seq<byte>, json: seq<byte>): seq<byte>
  {
    salt + [Nul] + json
  }

  /** `token_salt, json_data = cleartext.split(b'\0', 1)`: the parts before and
      after the first NUL; None where the unpacking raises (no NUL at all). */
  function SplitAtNul(b: seq<byte>): (r: Option<(seq<byte>, seq<byte>)>)
    ensures r.None? <==> Nul !in b
    ensures r.Some? ==> Nul !in r.value.0 && b == r.value.0 + [Nul] + r.value.1
    decreases |b|
  {
    if b == [] then None
    else if b[0] == Nul then Some(([], b[1..]))
    else
      match SplitAtNul(b[1..])
      case None => None
      case Some(parts) => Some(([b[0]] + parts.0, parts.1))
  }

  /** Two ways of writing a byte string as `x ‖ NUL ‖ y` with a NUL-free `x` agree. */
  lemma {:induction false} FirstNulUnique(x: seq<byte>, y: seq<byte>, x': seq<byte>, y': seq<byte>)
    requires Nul !in x && Nul !in x'
    requires x + [Nul] + y == x' + [Nul] + y'
    ensures x == x' && y == y'
    decreases |x|
  {
    if x == [] || x' == [] {
      assert (x + [Nul] + y)[0] == (x' + [Nul] + y')[0];
      if x == [] && x' == [] {
        assert y == (x + [Nul] + y)[1..];
      }
    } else {
      assert x[0] == x'[0] by { assert (x + [Nul] + y)[0] == (x' + [Nul] + y')[0]; }
      assert x[1..] + [Nul] + y == (x + [Nul] + y)[1..];
      assert x'[1..] + [Nul] + y' == (x' + [Nul] + y')[1..];
      FirstNulUnique(x[1..], y, x'[1..], y');
      assert x == [x[0]] + x[1..] && x' == [x'[0]] + x'[1..];
    }
  }

  /** Splitting the framed plaintext at its first NUL recovers a NUL-free salt
      and the serialized data. */
  lemma FramingSplit(salt: seq<byte>, json: seq<byte>)
    requires Nul !in salt
    ensures SplitAtNul(Frame(salt, json)) == Some((salt, json))
  {
    var r := SplitAtNul(Frame(salt, json));
    assert Nul in Frame(salt, json) by { assert Frame(salt, json)[|salt|] == Nul; }
    FirstNulUnique(r.value.0, r.value.1, salt, json);
  }

  /** A salt that contains a NUL is cut short by the split, so it never matches itself. */
  lemma FramingSaltWithNul(salt: seq<byte>, json: seq<byte>)
    requires Nul in salt
    ensures SplitAtNul(Frame(salt, json)).Some?
    ensures SplitAtNul(Frame(salt, json)).value.0 != salt
  {
    assert Nul in Frame(salt, json) by { assert Frame(salt, json)[|salt|] == Nul; }
  }

  // ---------------------------------------------------------------- the codec

  /** `generate_token(data, secret_key, salt)` at clock reading `now`. */
  function GenerateToken(ser: Serializer, c: Fernet.Cipher, data: Value, secretKey: string,
                         salt: seq<byte>, now: int): (r: Result<string, Exception>)
    ensures r.Success? <==> Fernet.KeyFromSecret(secretKey).Success? && 0 <= now < Fernet.TwoTo64
  {
    var json := ser.dumps(data);
    match Fernet.KeyFromSecret(secretKey)
    case Failure(e) => Failure(e)
    case Success(k) => Fernet.Encrypt(c, k, Frame(salt, json), now)
  }

  /** `decode_token(token, secret_key, salt, max_age_in_seconds)` at clock
      reading `now`: InvalidToken from decryption or on a salt mismatch,
      ValueError when the cleartext has no NUL or the JSON does not load. */
  function DecodeToken(ser: Serializer, c: Fernet.Cipher, token: string, secretKey: string,
                       salt: seq<byte>, maxAge: int, now: int): (r: Result<Value, Exception>)
    ensures Fernet.KeyFromSecret(secretKey).Failure? ==> r == Failure(Fernet.KeyFromSecret(secretKey).error)
    ensures Fernet.KeyFromSecret(secretKey).Success? ==>
              var cleartext := Fernet.Decrypt(c, Fernet.KeyFromSecret(secretKey).value, token, maxAge, now);
              && (cleartext.Failure? ==> r == Failure(InvalidToken))
              && (cleartext.Success? && Nul !in cleartext.value ==> r == Failure(ValueError))
              && (cleartext.Success? && Nul in cleartext.value ==>
                    var parts := SplitAtNul(cleartext.value).value;
                    && (parts.0 != salt ==> r == Failure(InvalidToken))
                    && (parts.0 == salt && ser.loads(parts.1).None? ==> r == Failure(ValueError))
                    && (parts.0 == salt && ser.loads(parts.1).Some? ==>
                          cleartext.value == Frame(salt, parts.1) && r == Success(ser.loads(parts.1).value)))
    ensures r.Success? ==> Fernet.KeyFromSecret(secretKey).Success?
  {
    match Fernet.KeyFromSecret(secretKey)
    case Failure(e) => Failure(e)
    case Success(k) =>
      match Fernet.Decrypt(c, k, token, maxAge, now)
      case Failure(e) => Failure(e)
      case Success(cleartext) =>
        match SplitAtNul(cleartext)
        case None => Failure(ValueError)
        case Some(parts) =>
          if parts.0 != salt then Failure(InvalidToken)
          else
            match ser.loads(parts.1)
            case None => Failure(ValueError)
            case Some(v) => Success(v)
  }

  /** Within its time to live, a token decodes with its own key and NUL-free
      salt to the data it was generated from. */
  lemma TokenRoundTrip(ser: Serializer, c: Fernet.Cipher, data: Value, secretKey: string,
                       salt: seq<byte>, t: nat, maxAge: int, now: int)
    requires Json.Lawful(ser) && Fernet.Lawful(c)
    requires Fernet.KeyFromSecret(secretKey).Success?
    requires Nul !in salt
    requires t < Fernet.TwoTo64 && now <= t + maxAge
    ensures GenerateToken(ser, c, data, secretKey, salt, t).Success?
    ensures DecodeToken(ser, c, GenerateToken(ser, c, data, secretKey, salt, t).value, secretKey, salt, maxAge, now)
         == Success(data)
  {
    var k := Fernet.KeyFromSecret(secretKey).value;
    Fernet.DecryptEncrypt(c, k, Frame(salt, ser.dumps(data)), t, maxAge, now);
    FramingSplit(salt, ser.dumps(data));
  }

  /** Decoding with any other salt raises InvalidToken, although decryption succeeds. */
  lemma TokenWrongSalt(ser: Serializer, c: Fernet.Cipher, data: Value, secretKey: string,
                       salt: seq<byte>, otherSalt: seq<byte>, t: nat, maxAge: int, now: int)
    requires Fernet.Lawful(c)
    requires Fernet.KeyFromSecret(secretKey).Success?
    requires Nul !in salt && otherSalt != salt
    requires t < Fernet.TwoTo64 && now <= t + maxAge
    ensures GenerateToken(ser, c, data, secretKey, salt, t).Success?
    ensures DecodeToken(ser, c, GenerateToken(ser, c, data, secretKey, salt, t).value, secretKey, otherSalt, maxAge, now)
         == Failure(InvalidToken)
  {
    var k := Fernet.KeyFromSecret(secretKey).value;
    Fernet.DecryptEncrypt(c, k, Frame(salt, ser.dumps(data)), t, maxAge, now);
    FramingSplit(salt, ser.dumps(data));
  }

  /** A salt containing NUL breaks the framing: even the right salt is refused. */
  lemma TokenSaltWithNul(ser: Serializer, c: Fernet.Cipher, data: Value, secretKey: string,
                         salt: seq<byte>, t: nat, maxAge: int, now: int)
    requires Fernet.Lawful(c)
    requires Fernet.KeyFromSecret(secretKey).Success?
    requires Nul in salt
    requires t < Fernet.TwoTo64 && now <= t + maxAge
    ensures GenerateToken(ser, c, data, secretKey, salt, t).Success?
    ensures DecodeToken(ser, c, GenerateToken(ser, c, data, secretKey, salt, t).value, secretKey, salt, maxAge, now)
         == Failure(InvalidToken)
  {
    var k := Fernet.KeyFromSecret(secretKey).value;
    Fernet.DecryptEncrypt(c, k, Frame(salt, ser.dumps(data)), t, maxAge, now);
    FramingSaltWithNul(salt, ser.dumps(data));
  }

  /** Decoding with a secret that stands for another key raises InvalidToken. */
  lemma TokenWrongKey(ser: Serializer, c: Fernet.Cipher, data: Value, secretKey: string,
                      otherKey: string, salt: seq<byte>, t: nat, maxAge: int, now: int)
    requires Fernet.Lawful(c)
    requires Fernet.KeyFromSecret(secretKey).Success? && Fernet.KeyFromSecret(otherKey).Success?
    requires Fernet.KeyFromSecret(secretKey).value != Fernet.KeyFromSecret(otherKey).value
    requires t < Fernet.TwoTo64
    ensures GenerateToken(ser, c, data, secretKey, salt, t).Success?
    ensures DecodeToken(ser, c, GenerateToken(ser, c, data, secretKey, salt, t).value, otherKey, salt, maxAge, now)
         == Failure(InvalidToken)
  {
    Fernet.DecryptWrongKey(c, Fernet.KeyFromSecret(secretKey).value, Fernet.KeyFromSecret(otherKey).value,
                           Frame(salt, ser.dumps(data)), t, maxAge, now);
  }

  /** A token older than the maximum age raises InvalidToken. */
  lemma TokenExpired(ser: Serializer, c: Fernet.Cipher, data: Value, secretKey: string,
                     salt: seq<byte>, t: nat, maxAge: int, now: int)
    requires Fernet.KeyFromSecret(secretKey).Success?
    requires t < Fernet.TwoTo64 && now > t + maxAge
    ensures GenerateToken(ser, c, data, secretKey, salt, t).Success?
    ensures DecodeToken(ser, c, GenerateToken(ser, c, data, secretKey, salt, t).value, secretKey, salt, maxAge, now)
         == Failure(InvalidToken)
  {
    var k := Fernet.KeyFromSecret(secretKey).value;
    Fernet.DecryptExpired(c, k, k, Frame(salt, ser.dumps(data)), t, maxAge, now);
  }

  /** Only generated tokens decode: whatever `decode_token` accepts is the
      encoding of a token minted under the same key for `salt ‖ NUL ‖ json`,
      with `json` loading to the returned value, within the maximum age. */
  lemma TokenAuthentic(ser: Serializer, c: Fernet.Cipher, token: string, secretKey: string,
                       salt: seq<byte>, maxAge: int, now: int, v: Value)
    requires Fernet.Lawful(c)
    requires DecodeToken(ser, c, token, secretKey, salt, maxAge, now) == Success(v)
    ensures Fernet.KeyFromSecret(secretKey).Success?
    ensures exists t: nat, json: seq<byte> ::
              && t < Fernet.TwoTo64 && now <= t + maxAge && ser.loads(json) == Some(v)
              && Base64Url.Decode(token) == Some(Fernet.Minted(c, Fernet.KeyFromSecret(secretKey).value, Frame(salt, json), t))
  {
    var k := Fernet.KeyFromSecret(secretKey).value;
    var cleartext := Fernet.Decrypt(c, k, token, maxAge, now).value;
    var parts := SplitAtNul(cleartext).value;
    Fernet.DecryptAuthentic(c, k, token, maxAge, now, cleartext);
    assert cleartext == Frame(salt, parts.1);
  }

  // ---------------------------------------------------------------- the issue time

  /** `parse_fernet_timestamp(token)` as seconds since 1970-01-01: TypeError for
      bad base64, ValueError when fewer than nine bytes decode (struct.error),
      OverflowError past the last representable `datetime`. */
  function ParseFernetTimestamp(token: string): (r: Result<nat, Exception>)
    ensures r.Success? ==> r.value <= MaxDatetimeSeconds
  {
    match Base64Url.Decode(token)
    case None => Failure(TypeError)
    case Some(decoded) =>
      if |decoded| < Fernet.HeaderLength then Failure(ValueError)
      else
        var seconds := Fernet.FromBigEndian(decoded[1..Fernet.HeaderLength]);
        if seconds > MaxDatetimeSeconds then Failure(OverflowError) else Success(seconds)
  }

  /** The timestamp parsed from a generated token is its generation time. */
  lemma TimestampOfGenerated(ser: Serializer, c: Fernet.Cipher, data: Value, secretKey: string,
                             salt: seq<byte>, t: nat)
    requires Fernet.KeyFromSecret(secretKey).Success?
    requires t < Fernet.TwoTo64
    ensures GenerateToken(ser, c, data, secretKey, salt, t).Success?
    ensures t <= MaxDatetimeSeconds ==> ParseFernetTimestamp(GenerateToken(ser, c, data, secretKey, salt, t).value) == Success(t)
    ensures t > MaxDatetimeSeconds ==> ParseFernetTimestamp(GenerateToken(ser, c, data, secretKey, salt, t).value) == Failure(OverflowError)
  {
    var k := Fernet.KeyFromSecret(secretKey).value;
    var minted := Fernet.Minted(c, k, Frame(salt, ser.dumps(data)), t);
    Base64Url.DecodeEncode(minted);
    Fernet.MintedIssuedAt(c, k, Frame(salt, ser.dumps(data)), t);
  }

  // ---------------------------------------------------------------- the policies

  /** The application settings the decoders read. */
  datatype Config = Config(
    secretKey: string,            // SECRET_KEY
    resetPasswordSalt: seq<byte>, // RESET_PASSWORD_SALT
    sharedEmailKey: string,       // SHARED_EMAIL_KEY
    inviteEmailSalt: seq<byte>)   // INVITE_EMAIL_SALT

  /** The reply `{'error': 'token_invalid'}`. */
  const TokenInvalid: Value := Object(map["error" := Str("token_invalid")])

  /** The `try` block of `decode_password_reset_token`: the payload and the
      token's issue time. */
  function DecodeResetAttempt(ser: Serializer, c: Fernet.Cipher, cfg: Config, token: string,
                              now: int): (r: Result<(Value, nat), Exception>)
    ensures r.Success? ==> DecodeToken(ser, c, token, cfg.secretKey, cfg.resetPasswordSalt, OneDayInSeconds, now)
                           == Success(r.value.0)
  {
    match DecodeToken(ser, c, token, cfg.secretKey, cfg.resetPasswordSalt, OneDayInSeconds, now)
    case Failure(e) => Failure(e)
    case Success(decoded) =>
      match ParseFernetTimestamp(token)
      case Failure(e) => Failure(e)
      case Success(issued) => Success((decoded, issued))
  }

  /** `decode_password_reset_token(token, data_api_client)` at clock reading
      `now`. `passwordChangedAt(user)` is the user's last password change in
      microseconds since the epoch, or None where fetching or parsing it raises.
      Every InvalidToken becomes `{'error': 'token_invalid'}`; so does a token
      issued before the last password change. Other exceptions escape. */
  function DecodePasswordResetToken(ser: Serializer, c: Fernet.Cipher, cfg: Config,
                                    passwordChangedAt: Value -> Option<int>, token: string,
                                    now: int): (r: Result<Value, Exception>)
    ensures (DecodeToken(ser, c, token, cfg.secretKey, cfg.resetPasswordSalt, OneDayInSeconds, now)
             == Failure(InvalidToken)) ==> r == Success(TokenInvalid)
    ensures r.Success? && r.value != TokenInvalid ==>
              DecodeToken(ser, c, token, cfg.secretKey, cfg.resetPasswordSalt, OneDayInSeconds, now) == r
    ensures var d := DecodeToken(ser, c, token, cfg.secretKey, cfg.resetPasswordSalt, OneDayInSeconds, now);
            d.Failure? && d.error != InvalidToken ==> r == Failure(d.error)
  {
    match DecodeResetAttempt(ser, c, cfg, token, now)
    case Failure(InvalidToken) => Success(TokenInvalid)
    case Failure(e) => Failure(e)
    case Success((decoded, issued)) =>
      match Subscript(decoded, "user")
      case Failure(e) => Failure(e)
      case Success(user) =>
        match passwordChangedAt(user)
        case None => Failure(LookupFailed)
        case Some(changedAt) =>
          if issued * MicrosecondsPerSecond < changedAt then Success(TokenInvalid)
          else Success(decoded)
  }

  /** The conditions under which a reset token minted at `t` for `data` is
      fresh: a well-formed secret, a NUL-free salt, a representable time, and a
      redemption within one day. */
  predicate FreshResetToken(cfg: Config, t: nat, now: int)
  {
    && Fernet.KeyFromSecret(cfg.secretKey).Success?
    && Nul !in cfg.resetPasswordSalt
    && t <= MaxDatetimeSeconds
    && now <= t + OneDayInSeconds
  }

  /** A fresh reset token for a user whose password last changed no later than
      the token's (whole-second) issue time yields its payload unchanged. */
  lemma PasswordResetAccepted(ser: Serializer, c: Fernet.Cipher, cfg: Config,
                              passwordChangedAt: Value -> Option<int>, fields: map<string, Value>,
                              t: nat, now: int)
    requires Json.Lawful(ser) && Fernet.Lawful(c)
    requires FreshResetToken(cfg, t, now)
    requires "user" in fields && passwordChangedAt(fields["user"]).Some?
    requires passwordChangedAt(fields["user"]).value <= t * MicrosecondsPerSecond
    ensures GenerateToken(ser, c, Object(fields), cfg.secretKey, cfg.resetPasswordSalt, t).Success?
    ensures DecodePasswordResetToken(ser, c, cfg, passwordChangedAt,
              GenerateToken(ser, c, Object(fields), cfg.secretKey, cfg.resetPasswordSalt, t).value, now)
         == Success(Object(fields))
  {
    TokenRoundTrip(ser, c, Object(fields), cfg.secretKey, cfg.resetPasswordSalt, t, OneDayInSeconds, now);
    TimestampOfGenerated(ser, c, Object(fields), cfg.secretKey, cfg.resetPasswordSalt, t);
  }

  /** A fresh reset token issued before the user's last password change is
      refused with `token_invalid`, although it has not expired. */
  lemma PasswordResetStale(ser: Serializer, c: Fernet.Cipher, cfg: Config,
                           passwordChangedAt: Value -> Option<int>, fields: map<string, Value>,
                           t: nat, now: int)
    requires Json.Lawful(ser) && Fernet.Lawful(c)
    requires FreshResetToken(cfg, t, now)
    requires "user" in fields && passwordChangedAt(fields["user"]).Some?
    requires passwordChangedAt(fields["user"]).value > t * MicrosecondsPerSecond
    ensures GenerateToken(ser, c, Object(fields), cfg.secretKey, cfg.resetPasswordSalt, t).Success?
    ensures DecodePasswordResetToken(ser, c, cfg, passwordChangedAt,
              GenerateToken(ser, c, Object(fields), cfg.secretKey, cfg.resetPasswordSalt, t).value, now)
         == Success(TokenInvalid)
  {
    TokenRoundTrip(ser, c, Object(fields), cfg.secretKey, cfg.resetPasswordSalt, t, OneDayInSeconds, now);
    TimestampOfGenerated(ser, c, Object(fields), cfg.secretKey, cfg.resetPasswordSalt, t);
  }

  /** An expired reset token gets the same `token_invalid` reply as a corrupt
      one: there is no separate "expired" outcome, and the user is not looked up. */
  lemma PasswordResetExpired(ser: Serializer, c: Fernet.Cipher, cfg: Config,
                             passwordChangedAt: Value -> Option<int>, data: Value, t: nat, now: int)
    requires Fernet.KeyFromSecret(cfg.secretKey).Success?
    requires t < Fernet.TwoTo64 && now > t + OneDayInSeconds
    ensures GenerateToken(ser, c, data, cfg.secretKey, cfg.resetPasswordSalt, t).Success?
    ensures DecodePasswordResetToken(ser, c, cfg, passwordChangedAt,
              GenerateToken(ser, c, data, cfg.secretKey, cfg.resetPasswordSalt, t).value, now)
         == Success(TokenInvalid)
  {
    TokenExpired(ser, c, data, cfg.secretKey, cfg.resetPasswordSalt, t, OneDayInSeconds, now);
  }

  /** A token minted with another salt (an invitation, say) is `token_invalid`
      for password reset. */
  lemma PasswordResetForeignSalt(ser: Serializer, c: Fernet.Cipher, cfg: Config,
                                 passwordChangedAt: Value -> Option<int>, data: Value,
                                 salt: seq<byte>, t: nat, now: int)
    requires Fernet.Lawful(c)
    requires Fernet.KeyFromSecret(cfg.secretKey).Success?
    requires Nul !in salt && salt != cfg.resetPasswordSalt
    requires t < Fernet.TwoTo64 && now <= t + OneDayInSeconds
    ensures GenerateToken(ser, c, data, cfg.secretKey, salt, t).Success?
    ensures DecodePasswordResetToken(ser, c, cfg, passwordChangedAt,
              GenerateToken(ser, c, data, cfg.secretKey, salt, t).value, now)
         == Success(TokenInvalid)
  {
    TokenWrongSalt(ser, c, data, cfg.secretKey, salt, cfg.resetPasswordSalt, t, OneDayInSeconds, now);
  }

  /** A fresh reset token for a user whose last password change is recorded
      at the epoch, time 0, is accepted: every representable token time is
      at or after it. */
  lemma PasswordResetChangedAtEpoch(ser: Serializer, c: Fernet.Cipher, cfg: Config,
                                  passwordChangedAt: Value -> Option<int>, fields: map<string, Value>,
                                  t: nat, now: int)
    requires Json.Lawful(ser) && Fernet.Lawful(c)
    requires FreshResetToken(cfg, t, now)
    requires "user" in fields && passwordChangedAt(fields["user"]) == Some(0)
    ensures GenerateToken(ser, c, Object(fields), cfg.secretKey, cfg.resetPasswordSalt, t).Success?
    ensures DecodePasswordResetToken(ser, c, cfg, passwordChangedAt,
              GenerateToken(ser, c, Object(fields), cfg.secretKey, cfg.resetPasswordSalt, t).value, now)
         == Success(Object(fields))
  {
    PasswordResetAccepted(ser, c, cfg, passwordChangedAt, fields, t, now);
  }

  /** Issue a reset token for `user` at T, the user's password change being
      recorded at the epoch: 23 hours later it is accepted and yields
      `{"user": user}`; 25 hours later it is `token_invalid`. */
  lemma PasswordResetScenario(ser: Serializer, c: Fernet.Cipher, cfg: Config,
                              passwordChangedAt: Value -> Option<int>, user: Value, t: nat)
    requires Json.Lawful(ser) && Fernet.Lawful(c)
    requires FreshResetToken(cfg, t, t)
    requires passwordChangedAt(user) == Some(0)
    ensures GenerateToken(ser, c, Object(map["user" := user]), cfg.secretKey, cfg.resetPasswordSalt, t).Success?
    ensures DecodePasswordResetToken(ser, c, cfg, passwordChangedAt,
              GenerateToken(ser, c, Object(map["user" := user]), cfg.secretKey, cfg.resetPasswordSalt, t).value,
              t + 23 * 3600)
         == Success(Object(map["user" := user]))
    ensures DecodePasswordResetToken(ser, c, cfg, passwordChangedAt,
              GenerateToken(ser, c, Object(map["user" := user]), cfg.secretKey, cfg.resetPasswordSalt, t).value,
              t + 25 * 3600)
         == Success(TokenInvalid)
  {
    var fields := map["user" := user];
    PasswordResetChangedAtEpoch(ser, c, cfg, passwordChangedAt, fields, t, t + 23 * 3600);
    PasswordResetExpired(ser, c, cfg, passwordChangedAt, Object(fields), t, t + 25 * 3600);
  }

  /** Tokens carry whole seconds and password changes microseconds: a token
      minted in the same second as, but after, a password change counts as
      issued before it and is refused. */
  lemma PasswordResetSameSecond(ser: Serializer, c: Fernet.Cipher, cfg: Config,
                                passwordChangedAt: Value -> Option<int>, fields: map<string, Value>,
                                t: nat, now: int, fraction: nat)
    requires Json.Lawful(ser) && Fernet.Lawful(c)
    requires FreshResetToken(cfg, t, now)
    requires 0 < fraction < MicrosecondsPerSecond
    requires "user" in fields && passwordChangedAt(fields["user"]) == Some(t * MicrosecondsPerSecond + fraction)
    ensures GenerateToken(ser, c, Object(fields), cfg.secretKey, cfg.resetPasswordSalt, t).Success?
    ensures DecodePasswordResetToken(ser, c, cfg, passwordChangedAt,
              GenerateToken(ser, c, Object(fields), cfg.secretKey, cfg.resetPasswordSalt, t).value, now)
         == Success(TokenInvalid)
  {
    PasswordResetStale(ser, c, cfg, passwordChangedAt, fields, t, now);
  }

  /** The fields an invitation must carry for `role`. */
  function RequiredFields(role: string): (fields: seq<string>)
    ensures "email_address" in fields
    ensures role == "supplier" <==> "supplier_code" in fields
    ensures role == "supplier" <==> "supplier_name" in fields
  {
    if role == "supplier" then ["email_address", "supplier_code", "supplier_name"] else ["email_address"]
  }

  /** `all(field in token for field in fields)`, stopping at the first False;
      a TypeError from `in` escapes. */
  function AllPresent(fields: seq<string>, v: Value): (r: Result<bool, Exception>)
    ensures r == Success(true) <==> forall f :: f in fields ==> Contains(v, f) == Success(true)
    ensures r.Failure? ==> fields != [] && Contains(v, fields[0]).Failure?
    decreases |fields|
  {
    if fields == [] then Success(true)
    else
      match Contains(v, fields[0])
      case Failure(e) => Failure(e)
      case Success(present) => if present then AllPresent(fields[1..], v) else Success(false)
  }

  /** `decode_invitation_token(encoded_token, role)` at clock reading `now`:
      the payload when the token decodes within seven days and carries every
      field `role` requires; None for any failure. */
  function DecodeInvitationToken(ser: Serializer, c: Fernet.Cipher, cfg: Config, encodedToken: string,
                                 role: string, now: int): (r: Option<Value>)
    ensures r.Some? <==>
              && DecodeToken(ser, c, encodedToken, cfg.sharedEmailKey, cfg.inviteEmailSalt, InvitationMaxAge, now).Success?
              && forall f :: f in RequiredFields(role) ==>
                   Contains(DecodeToken(ser, c, encodedToken, cfg.sharedEmailKey, cfg.inviteEmailSalt, InvitationMaxAge, now).value, f)
                   == Success(true)
    ensures r.Some? ==>
              DecodeToken(ser, c, encodedToken, cfg.sharedEmailKey, cfg.inviteEmailSalt, InvitationMaxAge, now)
              == Success(r.value)
  {
    match DecodeToken(ser, c, encodedToken, cfg.sharedEmailKey, cfg.inviteEmailSalt, InvitationMaxAge, now)
    case Failure(_) => None
    case Success(token) => if AllPresent(RequiredFields(role), token) == Success(true) then Some(token) else None
  }

  /** The conditions under which an invitation minted at `t` is fresh. */
  predicate FreshInvitation(cfg: Config, t: nat, now: int)
  {
    && Fernet.KeyFromSecret(cfg.sharedEmailKey).Success?
    && Nul !in cfg.inviteEmailSalt
    && t < Fernet.TwoTo64
    && now <= t + InvitationMaxAge
  }

  /** A fresh invitation whose payload holds every field the role requires is
      returned unchanged. */
  lemma InvitationAccepted(ser: Serializer, c: Fernet.Cipher, cfg: Config, fields: map<string, Value>,
                           role: string, t: nat, now: int)
    requires Json.Lawful(ser) && Fernet.Lawful(c)
    requires FreshInvitation(cfg, t, now)
    requires forall f :: f in RequiredFields(role) ==> f in fields
    ensures GenerateToken(ser, c, Object(fields), cfg.sharedEmailKey, cfg.inviteEmailSalt, t).Success?
    ensures DecodeInvitationToken(ser, c, cfg,
              GenerateToken(ser, c, Object(fields), cfg.sharedEmailKey, cfg.inviteEmailSalt, t).value, role, now)
         == Some(Object(fields))
  {
    TokenRoundTrip(ser, c, Object(fields), cfg.sharedEmailKey, cfg.inviteEmailSalt, t, InvitationMaxAge, now);
  }

  /** A fresh supplier invitation without `supplier_code` is refused for the
      supplier role, while the same token is accepted for any other role. */
  lemma InvitationMissingSupplierCode(ser: Serializer, c: Fernet.Cipher, cfg: Config,
                                      fields: map<string, Value>, otherRole: string, t: nat, now: int)
    requires Json.Lawful(ser) && Fernet.Lawful(c)
    requires FreshInvitation(cfg, t, now)
    requires "email_address" in fields && "supplier_code" !in fields
    requires otherRole != "supplier"
    ensures GenerateToken(ser, c, Object(fields), cfg.sharedEmailKey, cfg.inviteEmailSalt, t).Success?
    ensures DecodeInvitationToken(ser, c, cfg,
              GenerateToken(ser, c, Object(fields), cfg.sharedEmailKey, cfg.inviteEmailSalt, t).value, "supplier", now)
         == None
    ensures DecodeInvitationToken(ser, c, cfg,
              GenerateToken(ser, c, Object(fields), cfg.sharedEmailKey, cfg.inviteEmailSalt, t).value, otherRole, now)
         == Some(Object(fields))
  {
    InvitationRefusedWithout(ser, c, cfg, fields, "supplier", "supplier_code", t, now);
    assert RequiredFields(otherRole) == ["email_address"];
    InvitationAccepted(ser, c, cfg, fields, otherRole, t, now);
  }

  /** A fresh invitation whose payload lacks a field the role requires is
      refused. */
  lemma InvitationRefusedWithout(ser: Serializer, c: Fernet.Cipher, cfg: Config, fields: map<string, Value>,
                                 role: string, missing: string, t: nat, now: int)
    requires Json.Lawful(ser) && Fernet.Lawful(c)
    requires FreshInvitation(cfg, t, now)
    requires missing in RequiredFields(role) && missing !in fields
    ensures GenerateToken(ser, c, Object(fields), cfg.sharedEmailKey, cfg.inviteEmailSalt, t).Success?
    ensures DecodeInvitationToken(ser, c, cfg,
              GenerateToken(ser, c, Object(fields), cfg.sharedEmailKey, cfg.inviteEmailSalt, t).value, role, now)
         == None
  {
    TokenRoundTrip(ser, c, Object(fields), cfg.sharedEmailKey, cfg.inviteEmailSalt, t, InvitationMaxAge, now);
  }

  /** An expired invitation is refused like any other failure. */
  lemma InvitationExpired(ser: Serializer, c: Fernet.Cipher, cfg: Config, data: Value,
                          role: string, t: nat, now: int)
    requires Fernet.KeyFromSecret(cfg.sharedEmailKey).Success?
    requires t < Fernet.TwoTo64 && now > t + InvitationMaxAge
    ensures GenerateToken(ser, c, data, cfg.sharedEmailKey, cfg.inviteEmailSalt, t).Success?
    ensures DecodeInvitationToken(ser, c, cfg,
              GenerateToken(ser, c, data, cfg.sharedEmailKey, cfg.inviteEmailSalt, t).value, role, now)
         == None
  {
    TokenExpired(ser, c, data, cfg.sharedEmailKey, cfg.inviteEmailSalt, t, InvitationMaxAge, now);
  }
}
