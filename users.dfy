/** dmutils/user.py: the user record built from the data API's JSON, the
    predicates Flask-Login asks of it, its serialised form, its session
    identifier and its line in the logs. */
module Users {
  import opened Common
  import opened Json

  /** A user as hydrated from the API. Every field holds whatever JSON the
      API sent; the supplier fields are `Null` for users without a supplier. */
  datatype User = User(id: Value, emailAddress: Value, supplierCode: Value, supplierName: Value,
                       locked: Value, active: Value, name: Value, role: Value)

  /** `is_active`: `active and not locked`, read as a condition. */
  predicate IsActive(u: User)
  {
    Truthy(u.active) && !Truthy(u.locked)
  }

  /** `is_authenticated` is `is_active`. */
  predicate IsAuthenticated(u: User)
  {
    IsActive(u)
  }

  /** `is_anonymous`: a hydrated user never is. */
  predicate IsAnonymous(u: User)
  {
    false
  }

  predicate HasRole(u: User, role: string)
  {
    u.role == Str(role)
  }

  /** `has_any_role(*roles)`, one role at a time as `any` does. */
  function HasAnyRole(u: User, roles: seq<string>): (b: bool)
    ensures b <==> exists i :: 0 <= i < |roles| && HasRole(u, roles[i])
  {
    if roles == [] then false
    else
      assert forall i :: 1 <= i < |roles| ==> roles[i] == roles[1..][i - 1];
      HasRole(u, roles[0]) || HasAnyRole(u, roles[1..])
  }

  /** A locked or inactive user is neither active nor authenticated, no
      hydrated user is anonymous, and `has_any_role()` with no roles is False. */
  lemma AccessFollowsFlags(u: User, roles: seq<string>)
    ensures IsAuthenticated(u) <==> Truthy(u.active) && !Truthy(u.locked)
    ensures !IsAnonymous(u)
    ensures !HasAnyRole(u, [])
    ensures HasAnyRole(u, roles) ==> u.role.Str? && u.role.s in roles
  {
  }

  /** `user_has_role(user, role)` on raw API JSON: `user['users']['role'] ==
      role`, where a missing key or a value that is not a mapping gives False
      instead of an exception. */
  function UserHasRole(user: Value, role: string): (b: bool)
    ensures b <==> && user.Object? && "users" in user.fields
                   && user.fields["users"].Object? && "role" in user.fields["users"].fields
                   && user.fields["users"].fields["role"] == Str(role)
  {
    match Subscript(user, "users")
    case Failure(_) => false
    case Success(users) =>
      match Subscript(users, "role")
      case Failure(_) => false
      case Success(r) => r == Str(role)
  }

  // ---------------------------------------------------------------- hydration

  /** The API's `users` object holds what `from_json` reads. */
  predicate Hydratable(users: Value)
  {
    && users.Object?
    && (forall k :: k in ["id", "emailAddress", "name", "role"] ==> k in users.fields)
    && ("supplier" in users.fields ==>
          && users.fields["supplier"].Object?
          && "supplierCode" in users.fields["supplier"].fields
          && "name" in users.fields["supplier"].fields)
  }

  /** `User.from_json(user_json)`: lookups in the order Python performs them,
      the first that fails deciding the exception. */
  function FromJson(userJson: Value): (r: Result<User, Exception>)
    ensures r.Success? <==> userJson.Object? && "users" in userJson.fields && Hydratable(userJson.fields["users"])
    ensures r.Failure? ==> r.error == KeyError || r.error == TypeError
  {
    var users := Subscript(userJson, "users");
    if users.Failure? then Failure(users.error)
    else
      var u := users.value;
      var hasSupplier := Contains(u, "supplier");
      if hasSupplier.Failure? then Failure(hasSupplier.error)
      else
        var supplier := if hasSupplier.value then Subscript(u, "supplier") else Success(Null);
        if supplier.Failure? then Failure(supplier.error)
        else
          var code := if hasSupplier.value then Subscript(supplier.value, "supplierCode") else Success(Null);
          if code.Failure? then Failure(code.error)
          else
            var supplierName := if hasSupplier.value then Subscript(supplier.value, "name") else Success(Null);
            if supplierName.Failure? then Failure(supplierName.error)
            else
              var id := Subscript(u, "id");
              if id.Failure? then Failure(id.error)
              else
                var email := Subscript(u, "emailAddress");
                if email.Failure? then Failure(email.error)
                else
                  var name := Subscript(u, "name");
                  if name.Failure? then Failure(name.error)
                  else
                    var role := Subscript(u, "role");
                    if role.Failure? then Failure(role.error)
                    else
                      Success(User(id.value, email.value, code.value, supplierName.value,
                                   Get(u.fields, "locked", Bool(false)), Get(u.fields, "active", Bool(true)),
                                   name.value, role.value))
  }

  /** What a hydrated user holds: the fields read, `locked` defaulting to
      False, `active` to True, and the supplier fields `Null` without a supplier. */
  lemma FromJsonFields(userJson: Value)
    requires FromJson(userJson).Success?
    ensures var users := userJson.fields["users"].fields;
            var u := FromJson(userJson).value;
            && u.id == users["id"] && u.emailAddress == users["emailAddress"]
            && u.name == users["name"] && u.role == users["role"]
            && u.locked == (if "locked" in users then users["locked"] else Bool(false))
            && u.active == (if "active" in users then users["active"] else Bool(true))
            && ("supplier" in users ==> u.supplierCode == users["supplier"].fields["supplierCode"]
                                        && u.supplierName == users["supplier"].fields["name"])
            && ("supplier" !in users ==> u.supplierCode == Null && u.supplierName == Null)
  {
  }

  /** The API record of a user, as `from_json` expects it. */
  function ApiRecord(u: User): Value
  {
    var base := map["id" := u.id, "emailAddress" := u.emailAddress, "name" := u.name, "role" := u.role,
                     "locked" := u.locked, "active" := u.active];
    var users := if u.supplierCode == Null && u.supplierName == Null then base
                 else base["supplier" := Object(map["supplierCode" := u.supplierCode, "name" := u.supplierName])];
    Object(map["users" := Object(users)])
  }

  /** Hydrating a user's API record gives the user back. */
  lemma FromJsonApiRecord(u: User)
    ensures FromJson(ApiRecord(u)) == Success(u)
  {
    var users := ApiRecord(u).fields["users"];
    assert Hydratable(users);
    FromJsonFields(ApiRecord(u));
  }

  /** A record without `locked` and `active` hydrates to an active user. */
  lemma MissingFlagsMeanActive(userJson: Value)
    requires FromJson(userJson).Success?
    requires "locked" !in userJson.fields["users"].fields && "active" !in userJson.fields["users"].fields
    ensures IsActive(FromJson(userJson).value)
  {
    FromJsonFields(userJson);
  }

  // ---------------------------------------------------------------- serialised form

  /** `serialize()`: exactly six entries; role and `active` are not among them. */
  function Serialize(u: User): (m: map<string, Value>)
    ensures m.Keys == {"id", "name", "emailAddress", "supplierCode", "supplierName", "locked"}
  {
    map["id" := u.id, "name" := u.name, "emailAddress" := u.emailAddress,
        "supplierCode" := u.supplierCode, "supplierName" := u.supplierName, "locked" := u.locked]
  }

  /** The serialised form lacks the role, so it cannot be hydrated again. */
  lemma SerializedIsNotApiRecord(u: User)
    ensures FromJson(Object(map["users" := Object(Serialize(u))])) == Failure(KeyError)
  {
    var users := Object(Serialize(u));
    assert "role" !in users.fields;
    assert "supplier" !in users.fields;
  }

  // ---------------------------------------------------------------- identifiers

  function DigitChar(d: nat): (c: char)
    requires d < 10
    ensures IsDigit(c) && DigitValue(c) == d
  {
    ('0' as int + d) as char
  }

  /** Decimal digits of a natural number, most significant first. */
  function NatText(n: nat): (s: string)
    ensures s != [] && forall i :: 0 <= i < |s| ==> IsDigit(s[i])
    decreases n
  {
    if n < 10 then [DigitChar(n)] else NatText(n / 10) + [DigitChar(n % 10)]
  }

  /** `unicode(n)` of an integer. */
  function IntText(n: int): string
  {
    if n < 0 then "-" + NatText(-n) else NatText(n)
  }

  /** The value of a string of decimal digits. */
  function DecimalValue(s: string): nat
    requires forall i :: 0 <= i < |s| ==> IsDigit(s[i])
  {
    if s == [] then 0 else DecimalValue(s[..|s| - 1]) * 10 + DigitValue(s[|s| - 1])
  }

  lemma {:induction false} NatTextValue(n: nat)
    ensures DecimalValue(NatText(n)) == n
    decreases n
  {
    if n >= 10 {
      var s := NatText(n);
      assert s[..|s| - 1] == NatText(n / 10);
      NatTextValue(n / 10);
    }
  }

  /** `int(s)` on a text: surrounding whitespace, an optional sign, then at
      least one decimal digit; anything else is a ValueError. */
  function ParseInt(s: string): (r: Result<int, Exception>)
    ensures r.Failure? ==> r.error == ValueError
  {
    ParseSigned(Strip(s, IsUnicodeWhitespace))
  }

  /** An optional sign followed by at least one decimal digit. Python 2's
      `int` skips whitespace between the sign and the digits. */
  function ParseSigned(t: string): (r: Result<int, Exception>)
    ensures r.Failure? ==> r.error == ValueError
  {
    if t != [] && (t[0] == '-' || t[0] == '+') then SignedDigits(t[0], TrimLeft(t[1..], IsUnicodeWhitespace))
    else if t != [] && AllDigits(t) then Success(DecimalValue(t))
    else Failure(ValueError)
  }

  /** The number a sign and the text after its whitespace spell: at least
      one digit and nothing else. */
  function SignedDigits(sign: char, digits: string): (r: Result<int, Exception>)
    ensures r.Success? <==> digits != [] && AllDigits(digits)
    ensures r.Failure? ==> r.error == ValueError
  {
    if digits != [] && AllDigits(digits) then
      var v: int := DecimalValue(digits);
      Success(if sign == '-' then -v else v)
    else Failure(ValueError)
  }

  /** Whitespace between the sign and the digits does not change the value. */
  lemma ParseSignedSpaced(sign: char, gap: string, digits: string)
    requires sign == '-' || sign == '+'
    requires forall k :: 0 <= k < |gap| ==> IsUnicodeWhitespace(gap[k])
    requires digits != [] && AllDigits(digits)
    ensures ParseSigned([sign] + gap + digits) == ParseSigned([sign] + digits)
    ensures ParseSigned([sign] + digits).Success?
  {
    var spaced := [sign] + gap + digits;
    var plain := [sign] + digits;
    assert spaced[0] == sign && spaced[1..] == gap + digits;
    assert plain[0] == sign && plain[1..] == digits;
    ParseSignedSign(spaced);
    ParseSignedSign(plain);
    TrimLeftPadded(gap, digits, IsUnicodeWhitespace);
    DigitsUntrimmed(digits);
  }

  /** The value of a sign and its digits. */
  lemma SignedDigitsValue(sign: char, digits: string)
    requires digits != [] && AllDigits(digits)
    ensures var v: int := DecimalValue(digits); SignedDigits(sign, digits) == Success(if sign == '-' then -v else v)
  {
  }

  /** A text that begins with a sign is read by `SignedDigits`. */
  lemma ParseSignedSign(t: string)
    requires t != [] && (t[0] == '-' || t[0] == '+')
    ensures ParseSigned(t) == SignedDigits(t[0], TrimLeft(t[1..], IsUnicodeWhitespace))
  {
  }

  /** A run of digits has no leading whitespace to skip. */
  lemma DigitsUntrimmed(digits: string)
    requires digits != [] && AllDigits(digits)
    ensures TrimLeft(digits, IsUnicodeWhitespace) == digits
  {
    assert IsDigit(digits[0]);
  }

  /** The text of an integer has no surrounding whitespace. */
  lemma IntTextStripped(n: int)
    ensures Strip(IntText(n), IsUnicodeWhitespace) == IntText(n)
  {
    var s := IntText(n);
    assert IsDigit(s[|s| - 1]);
    assert !IsUnicodeWhitespace(s[0]) && !IsUnicodeWhitespace(s[|s| - 1]);
    StripStripped(s, IsUnicodeWhitespace);
  }

  /** Reading back the text of an integer gives the integer. */
  lemma ParseIntText(n: int)
    ensures ParseInt(IntText(n)) == Success(n)
  {
    IntTextStripped(n);
    ParseSignedText(n);
  }

  lemma ParseSignedText(n: int)
    ensures ParseSigned(IntText(n)) == Success(n)
  {
    if n < 0 {
      ParseNegativeText(-n);
    } else {
      var s := IntText(n);
      NatTextValue(n);
      assert AllDigits(s);
      assert IsDigit(s[0]);
    }
  }

  lemma ParseNegativeText(m: nat)
    requires m > 0
    ensures ParseSigned("-" + NatText(m)) == Success(-(m as int))
  {
    var digits := NatText(m);
    var s := "-" + digits;
    NatTextValue(m);
    assert s[0] == '-' && s[1..] == digits;
    DigitsUntrimmed(digits);
    ParseSignedSign(s);
    SignedDigitsValue('-', digits);
  }

  /** `str(v)` of a scalar JSON value; the text of lists and mappings is not
      modelled. */
  function ScalarText(v: Value): (r: Option<string>)
    ensures r.None? <==> v.Array? || v.Object?
  {
    match v
    case Null => Some("None")
    case Bool(b) => Some(if b then "True" else "False")
    case Number(n) => Some(IntText(n))
    case Str(s) => Some(s)
    case _ => None
  }

  /** `get_id()`: the identifier as text. */
  function GetId(u: User): (r: Option<string>)
    ensures u.id.Number? ==> r.Some? && ParseInt(r.value) == Success(u.id.n)
    ensures u.id.Str? ==> r == Some(u.id.s)
  {
    if u.id.Number? then
      ParseIntText(u.id.n);
      ScalarText(u.id)
    else ScalarText(u.id)
  }

  // ---------------------------------------------------------------- loading

  /** `User.load_user(data_api_client, user_id)`; the client's `get_user` is
      the parameter `getUser`. The id is parsed as an integer (a ValueError
      otherwise); an empty response gives no user, and so does an inactive one. */
  function LoadUser(getUser: int -> Value, userId: string): (r: Result<Option<User>, Exception>)
    ensures ParseInt(userId).Failure? ==> r == Failure(ValueError)
    ensures r.Success? && r.value.Some? ==>
              && ParseInt(userId).Success? && Truthy(getUser(ParseInt(userId).value))
              && FromJson(getUser(ParseInt(userId).value)) == Success(r.value.value)
              && IsActive(r.value.value)
    ensures ParseInt(userId).Success? && !Truthy(getUser(ParseInt(userId).value)) ==> r == Success(None)
    ensures ParseInt(userId).Success? && Truthy(getUser(ParseInt(userId).value)) ==>
              var parsed := FromJson(getUser(ParseInt(userId).value));
              && (parsed.Failure? ==> r == Failure(parsed.error))
              && (parsed.Success? ==> r == Success(if IsActive(parsed.value) then Some(parsed.value) else None))
  {
    match ParseInt(userId)
    case Failure(e) => Failure(e)
    case Success(n) =>
      var userJson := getUser(n);
      if !Truthy(userJson) then Success(None)
      else
        match FromJson(userJson)
        case Failure(e) => Failure(e)
        case Success(user) => if IsActive(user) then Success(Some(user)) else Success(None)
  }

  /** A user whose numeric id went into the session comes back from it
      exactly when the API still describes them as active. */
  lemma SessionRoundTrip(getUser: int -> Value, u: User)
    requires u.id.Number? && getUser(u.id.n) == ApiRecord(u)
    ensures GetId(u).Some?
    ensures LoadUser(getUser, GetId(u).value) == Success(if IsActive(u) then Some(u) else None)
  {
    FromJsonApiRecord(u);
    assert Truthy(ApiRecord(u));
  }

  // ---------------------------------------------------------------- logging

  /** The user of a request: Flask-Login's anonymous user, or a signed-in one. */
  datatype CurrentUser = Anonymous | SignedIn(user: User)

  /** `user_logging_string(user)`; the hash of the email text is the
      parameter `hashEmail`. None when the id or role is a list or mapping
      (their text is not modelled) and when the email is not text, where
      `email.encode('utf-8')` raises AttributeError. */
  function UserLoggingString(current: CurrentUser, hashEmail: string -> string): (r: Option<string>)
    ensures current.Anonymous? ==> r == Some("User(anonymous)")
    ensures current.SignedIn? && r.Some? ==> StartsWith(r.value, "User(id=")
    ensures current.SignedIn? ==>
              (r.Some? <==> && ScalarText(current.user.id).Some? && ScalarText(current.user.role).Some?
                            && current.user.emailAddress.Str?)
    ensures current.SignedIn? && r.Some? ==>
              r.value == "User(id=" + ScalarText(current.user.id).value + ", role=" + ScalarText(current.user.role).value
                         + ", hashed_email=" + hashEmail(current.user.emailAddress.s) + ")"
  {
    match current
    case Anonymous => Some("User(anonymous)")
    case SignedIn(u) =>
      match (ScalarText(u.id), ScalarText(u.role), u.emailAddress)
      case (Some(id), Some(role), Str(email)) =>
        Some("User(id=" + id + ", role=" + role + ", hashed_email=" + hashEmail(email) + ")")
      case _ => None
  }

  /** No signed-in user's log line reads as the anonymous one. */
  lemma LoggingTellsAnonymousApart(u: User, hashEmail: string -> string)
    requires UserLoggingString(SignedIn(u), hashEmail).Some?
    ensures UserLoggingString(SignedIn(u), hashEmail) != UserLoggingString(Anonymous, hashEmail)
  {
    var line := UserLoggingString(SignedIn(u), hashEmail).value;
    assert line[5] == 'i';
    assert "User(anonymous)"[5] == 'a';
  }
}
