/** dmutils/forms.py: the email-format validator, the government-domain
    whitelist and its `non_gov` flag, whitespace stripping of form input, the
    fake CSRF implementation, the CSRF configuration `DmForm` writes into its
    shared `Meta`, `is_csrf_token_valid`, and the caching rule of
    `render_template_with_csrf`. */
module Forms {
  import opened Common
  import opened Http

  // ---------------------------------------------------------------- email format

  /** `[^@^\s]` under re.UNICODE. */
  predicate LocalChar(c: char)
  {
    c != '@' && c != '^' && !IsUnicodeWhitespace(c)
  }

  /** `[\d\w-]`, with `\d` and `\w` restricted to ASCII. */
  predicate DomainChar(c: char)
  {
    IsAsciiAlnum(c) || c == '_' || c == '-'
  }

  /** `[\d\w-]+(\.[\d\w-]+)+`: labels of domain characters, at least two,
      separated by single dots. */
  predicate WellFormedDomain(d: string)
  {
    && d != [] && d[0] != '.' && d[|d| - 1] != '.' && '.' in d
    && (forall j :: 0 <= j < |d| ==> d[j] == '.' || DomainChar(d[j]))
    && (forall j :: 0 <= j < |d| - 1 ==> d[j] == '.' ==> d[j + 1] != '.')
  }

  /** `[^@^\s]+@` followed by a well-formed domain, up to the end. */
  predicate WellFormedAddress(t: string)
  {
    && '@' in t
    && var i := IndexOf(t, '@');
    && i > 0
    && (forall j :: 0 <= j < i ==> LocalChar(t[j]))
    && WellFormedDomain(t[i + 1..])
  }

  /** What `email_validator` accepts: Python's `$` also matches just before a
      final newline, so one trailing newline is allowed. */
  predicate MatchesEmailRegex(s: string)
  {
    || WellFormedAddress(s)
    || (s != [] && s[|s| - 1] == '\n' && WellFormedAddress(s[..|s| - 1]))
  }

  /** Scans a domain from position `i`; `prevDot` says the previous character
      was a dot (or there was none), `sawDot` that a dot has been seen. */
  function ScanDomain(d: string, i: nat, prevDot: bool, sawDot: bool): bool
    requires i <= |d|
    decreases |d| - i
  {
    if i == |d| then !prevDot && sawDot
    else if d[i] == '.' then !prevDot && ScanDomain(d, i + 1, true, true)
    else DomainChar(d[i]) && ScanDomain(d, i + 1, false, sawDot)
  }

  /** Scans the local part from position `i`, handing over at the first `@`. */
  function ScanLocal(s: string, i: nat): bool
    requires i <= |s|
    decreases |s| - i
  {
    if i == |s| then false
    else if s[i] == '@' then i > 0 && ScanDomain(s[i + 1..], 0, true, false)
    else LocalChar(s[i]) && ScanLocal(s, i + 1)
  }

  /** The hand-written recogniser of the email regex. */
  function MatchEmail(s: string): (b: bool)
    ensures b <==> MatchesEmailRegex(s)
  {
    ScanLocalCorrect(s, 0);
    if s != [] && s[|s| - 1] == '\n' then ScanLocalCorrect(s[..|s| - 1], 0); ScanLocal(s, 0) || ScanLocal(s[..|s| - 1], 0)
    else ScanLocal(s, 0)
  }

  /** What the domain scanner has checked of `d[..i]`. */
  predicate DomainPrefix(d: string, i: nat)
    requires i <= |d|
  {
    && (i > 0 ==> d[0] != '.')
    && (forall j :: 0 <= j < i ==> d[j] == '.' || DomainChar(d[j]))
    && (forall j :: 0 <= j < i - 1 ==> d[j] == '.' ==> d[j + 1] != '.')
  }

  lemma {:induction false} ScanDomainCorrect(d: string, i: nat, prevDot: bool, sawDot: bool)
    requires i <= |d| && DomainPrefix(d, i)
    requires prevDot == (i == 0 || d[i - 1] == '.')
    requires sawDot == ('.' in d[..i])
    ensures ScanDomain(d, i, prevDot, sawDot) <==> WellFormedDomain(d)
    decreases |d| - i
  {
    if i == |d| {
      assert d[..i] == d;
    } else {
      assert d[..i + 1] == d[..i] + [d[i]];
      if d[i] == '.' {
        if !prevDot {
          ScanDomainCorrect(d, i + 1, true, true);
        }
      } else if DomainChar(d[i]) {
        ScanDomainCorrect(d, i + 1, false, sawDot);
      }
    }
  }

  lemma {:induction false} ScanLocalCorrect(s: string, i: nat)
    requires i <= |s| && forall j :: 0 <= j < i ==> LocalChar(s[j])
    ensures ScanLocal(s, i) <==> WellFormedAddress(s)
    decreases |s| - i
  {
    if i == |s| {
      assert '@' !in s by {
        if '@' in s {
          var k := IndexOf(s, '@');
          assert false;
        }
      }
    } else if s[i] == '@' {
      assert '@' !in s[..i] by {
        forall j | 0 <= j < i ensures s[..i][j] != '@' {
          assert LocalChar(s[j]);
        }
      }
      assert IndexOf(s, '@') == i;
      assert s[i + 1..][..0] == [];
      ScanDomainCorrect(s[i + 1..], 0, true, false);
    } else if LocalChar(s[i]) {
      ScanLocalCorrect(s, i + 1);
    } else if '@' in s {
      var k := IndexOf(s, '@');
      assert k > i;
    }
  }

  /** An address split at its first `@` into local part and domain. */
  lemma AddressParts(l: string, d: string)
    requires '@' !in l
    ensures WellFormedAddress(l + "@" + d) <==>
              l != [] && (forall j :: 0 <= j < |l| ==> LocalChar(l[j])) && WellFormedDomain(d)
  {
    var t := l + "@" + d;
    assert t[..|l|] == l;
    assert t[|l|] == '@';
    assert IndexOf(t, '@') == |l|;
    assert t[|l| + 1..] == d;
  }

  /** With a final newline the regex also tries the address without it. */
  lemma NewlineVariant(l: string, d: string)
    requires d != [] && d[|d| - 1] == '\n'
    ensures var t := l + "@" + d; t[..|t| - 1] == l + "@" + d[..|d| - 1]
  {
  }

  /** What follows the first `@` decides, with or without a final newline. */
  lemma RefusedByDomain(l: string, d: string)
    requires '@' !in l
    requires !WellFormedDomain(d)
    requires d != [] && d[|d| - 1] == '\n' ==> !WellFormedDomain(d[..|d| - 1])
    ensures !MatchesEmailRegex(l + "@" + d)
  {
    AddressParts(l, d);
    if d != [] && d[|d| - 1] == '\n' {
      NewlineVariant(l, d);
      AddressParts(l, d[..|d| - 1]);
    }
  }

  /** A local part of allowed characters, then two labels joined by a dot,
      is accepted (`good@example.com`, `good-email+plus@example.com`). */
  lemma TwoLabelAddressAccepted(l: string, a: string, b: string)
    requires l != [] && forall j :: 0 <= j < |l| ==> LocalChar(l[j])
    requires a != [] && b != []
    requires forall j :: 0 <= j < |a| ==> DomainChar(a[j])
    requires forall j :: 0 <= j < |b| ==> DomainChar(b[j])
    ensures MatchesEmailRegex(l + "@" + (a + "." + b))
  {
    var d := a + "." + b;
    assert d[|a|] == '.';
    assert forall j :: 0 <= j < |d| ==> d[j] == '.' || DomainChar(d[j]) by {
      forall j | 0 <= j < |d| ensures d[j] == '.' || DomainChar(d[j]) {
        if j < |a| { assert d[j] == a[j]; }
        else if j > |a| { assert d[j] == b[j - |a| - 1]; }
      }
    }
    assert forall j :: 0 <= j < |d| - 1 ==> d[j] == '.' ==> d[j + 1] != '.' by {
      forall j | 0 <= j < |d| - 1 && d[j] == '.' ensures d[j + 1] != '.' {
        if j == |a| { assert d[j + 1] == b[0]; }
      }
    }
    assert d[|d| - 1] == b[|b| - 1];
    assert '@' !in l by {
      forall j | 0 <= j < |l| ensures l[j] != '@' { assert LocalChar(l[j]); }
    }
    AddressParts(l, d);
  }

  /** A second `@` right after the first is refused (`bad@@example.com`). */
  lemma DoubleAtRefused(l: string, d: string)
    requires '@' !in l
    ensures !MatchesEmailRegex(l + "@" + ("@" + d))
  {
    RefusedByDomain(l, "@" + d);
  }

  /** A domain without a dot is refused (`bad@`, `bad@localhost`). */
  lemma UndottedDomainRefused(l: string, d: string)
    requires '@' !in l && '.' !in d
    ensures !MatchesEmailRegex(l + "@" + d)
  {
    if d != [] {
      assert '.' !in d[..|d| - 1];
    }
    RefusedByDomain(l, d);
  }

  /** Whitespace before the `@` is refused (`bad @example.com`). */
  lemma WhitespaceInLocalPartRefused(l: string, c: char, d: string)
    requires '@' !in l && IsUnicodeWhitespace(c)
    ensures !MatchesEmailRegex(l + [c] + "@" + d)
  {
    var l' := l + [c];
    assert !LocalChar(l'[|l|]);
    AddressParts(l', d);
    if d != [] && d[|d| - 1] == '\n' {
      NewlineVariant(l', d);
      AddressParts(l', d[..|d| - 1]);
    }
  }

  const InvalidEmailMessage := "You must provide a valid email address"

  // ---------------------------------------------------------------- government domains

  const GovEmailDomains: seq<string> := ["gov.au", "digital.cabinet-office.gov.uk"]

  /** `email_address.split('@')[-1]`: the last piece of the split, which is
      everything after the last `@`, or the whole text without one. */
  function DomainOf(email: string): (r: string)
    ensures '@' !in r
    ensures |r| <= |email| && r == email[|email| - |r|..]
    ensures '@' in email ==> |r| < |email| && email[|email| - |r| - 1] == '@'
    ensures '@' !in email ==> r == email
  {
    if '@' in email then email[LastIndexOf(email, '@') + 1..] else email
  }

  /** Whatever precedes it, the domain of `local@domain` is `domain` when
      that holds no `@`. */
  lemma DomainAfterAt(local: string, domain: string)
    requires '@' !in domain
    ensures DomainOf(local + "@" + domain) == domain
  {
    var email := local + "@" + domain;
    assert email[|local|] == '@';
    assert email[|local| + 1..] == domain;
    LastIndexUnique(email, '@', |local|);
  }

  /** `domain` is the whitelisted domain `d` or one of its subdomains. */
  predicate UnderDomain(domain: string, d: string)
  {
    domain == d || EndsWith(domain, "." + d)
  }

  /** Some whitelisted domain covers `domain`. */
  predicate IsGovernmentDomain(domain: string)
  {
    exists d :: d in GovEmailDomains && UnderDomain(domain, d)
  }

  /** `is_government_email(email_address)`: the domain after the last `@` is
      a whitelisted domain or one of its subdomains. */
  predicate IsGovernmentEmail(email: string)
  {
    IsGovernmentDomain(DomainOf(email))
  }

  /** Any subdomain of a whitelisted domain is accepted, whatever precedes the `@`. */
  lemma GovernmentSubdomain(local: string, sub: string, d: string)
    requires d in GovEmailDomains && '@' !in sub && '@' !in d
    ensures IsGovernmentEmail(local + "@" + sub + "." + d)
  {
    var dotted := "." + d;
    var tail := sub + dotted;
    assert local + "@" + sub + "." + d == local + "@" + tail;
    DomainAfterAt(local, tail);
    assert tail[|sub|..] == dotted;
  }

  /** A domain that merely ends in the same letters is not a subdomain. */
  lemma LookalikeDomainRejected(local: string)
    ensures !IsGovernmentEmail(local + "@" + "notgov.au")
  {
    DomainAfterAt(local, "notgov.au");
    forall d | d in GovEmailDomains
      ensures !UnderDomain("notgov.au", d)
    {
      if d == GovEmailDomains[0] {
        assert "notgov.au"[2] != ("." + d)[0];
      }
    }
  }

  /** A form field: its label (markup already stripped), its data and its flags. */
  class Field {
    const labelText: string
    var data: string
    var nonGov: bool

    constructor (labelText: string, data: string)
      ensures this.labelText == labelText && this.data == data && !nonGov
    {
      this.labelText := labelText;
      this.data := data;
      nonGov := false;
    }
  }

  /** `government_email_validator(form, field)`: a malformed address fails the
      format check with `non_gov` false; a well-formed address outside the
      whitelist sets `non_gov` and fails; a government address passes with
      `non_gov` false. */
  method GovernmentEmailValidator(field: Field) returns (r: Result<(), string>)
    modifies field
    ensures field.data == old(field.data)
    ensures !MatchesEmailRegex(field.data) ==> r == Failure(InvalidEmailMessage) && !field.nonGov
    ensures MatchesEmailRegex(field.data) && !IsGovernmentEmail(field.data) ==>
              r == Failure(field.labelText + " needs to be a government email address") && field.nonGov
    ensures MatchesEmailRegex(field.data) && IsGovernmentEmail(field.data) ==> r == Success(()) && !field.nonGov
  {
    field.nonGov := false;
    if !MatchEmail(field.data) {
      return Failure(InvalidEmailMessage);
    }
    if !IsGovernmentEmail(field.data) {
      field.nonGov := true;
      return Failure(field.labelText + " needs to be a government email address");
    }
    return Success(());
  }

  // ---------------------------------------------------------------- input filters

  /** A submitted field value: missing, text, or a value without `strip`. */
  datatype FieldData = Null | Text(text: string) | Other

  /** `strip_whitespace(value)`: text loses its surrounding whitespace,
      anything else passes through. */
  function StripWhitespace(value: FieldData): (r: FieldData)
    ensures !value.Text? ==> r == value
    ensures value.Text? ==> r.Text? && exists i :: StrippedAt(value.text, IsUnicodeWhitespace, i, r.text)
    ensures r.Text? ==> r.text == [] || (!IsUnicodeWhitespace(r.text[0]) && !IsUnicodeWhitespace(r.text[|r.text| - 1]))
  {
    match value
    case Text(s) => Text(Strip(s, IsUnicodeWhitespace))
    case _ => value
  }

  /** Stripping twice is stripping once. */
  lemma StripWhitespaceIdempotent(value: FieldData)
    ensures StripWhitespace(StripWhitespace(value)) == StripWhitespace(value)
  {
    if value.Text? {
      var t := Strip(value.text, IsUnicodeWhitespace);
      assert StripWhitespace(value) == Text(t);
      StripStripped(t, IsUnicodeWhitespace);
    }
  }

  // ---------------------------------------------------------------- CSRF

  const ValidFakeCsrfToken := "valid_fake_csrf_token"

  /** `FakeCsrf.generate_csrf_token`: always the one valid token. */
  function FakeGenerateCsrfToken(csrfToken: Option<string>): string
  {
    ValidFakeCsrfToken
  }

  /** `FakeCsrf.validate_csrf_token`: only the exact valid token passes. */
  function FakeValidateCsrfToken(data: Option<string>): (r: Result<(), Exception>)
    ensures r.Success? <==> data == Some(ValidFakeCsrfToken)
    ensures r.Failure? ==> r.error == ValueError
  {
    if data != Some(ValidFakeCsrfToken) then Failure(ValueError) else Success(())
  }

  /** A token the fake generates is one it accepts, and no other text is. */
  lemma FakeCsrfRoundTrip(previous: Option<string>, other: string)
    requires other != ValidFakeCsrfToken
    ensures FakeValidateCsrfToken(Some(FakeGenerateCsrfToken(previous))).Success?
    ensures FakeValidateCsrfToken(Some(other)).Failure? && FakeValidateCsrfToken(None).Failure?
  {
  }

  /** The CSRF implementation `DmForm.Meta` names. */
  datatype CsrfClass = SessionCsrf | FakeCsrf | NoCsrfClass

  /** The application settings the form code reads. `CSRF_FAKED` absent is
      false; `CSRF_TIME_LIMIT` may be absent. */
  datatype Config = Config(csrfEnabled: bool, csrfFaked: bool, secretKey: string,
                           csrfTimeLimit: Option<int>, defaultCacheMaxAge: int)

  /** `DmForm.Meta`: class-level settings, shared by every form and rewritten
      whenever a form is built. */
  class FormMeta {
    var csrf: bool
    var csrfClass: CsrfClass
    var csrfSecret: Option<string>
    var csrfTimeLimit: Option<int>

    /** CSRF is never on without an implementation to check it. */
    predicate Valid()
      reads this
    {
      csrf ==> csrfClass != NoCsrfClass
    }

    constructor ()
      ensures Valid() && csrf && csrfClass == SessionCsrf && csrfSecret == None && csrfTimeLimit == None
    {
      csrf := true;
      csrfClass := SessionCsrf;
      csrfSecret := None;
      csrfTimeLimit := None;
    }

    /** The shared settings once `DmForm.__init__` ran under `config`: with
        CSRF enabled the secret is set, and the time limit too when the
        setting exists (its absence raises KeyError before the limit is
        read); a faked configuration selects the fake implementation; any
        other switches CSRF off. */
    twostate predicate ConfiguredBy(config: Config)
      reads this
    {
      if config.csrfEnabled then
        && csrf == old(csrf) && csrfClass == old(csrfClass) && csrfSecret == Some(config.secretKey)
        && csrfTimeLimit == (if config.csrfTimeLimit.None? then old(csrfTimeLimit) else config.csrfTimeLimit)
      else if config.csrfFaked then
        && csrf == old(csrf) && csrfClass == FakeCsrf
        && csrfSecret == old(csrfSecret) && csrfTimeLimit == old(csrfTimeLimit)
      else
        && !csrf && csrfClass == NoCsrfClass
        && csrfSecret == old(csrfSecret) && csrfTimeLimit == old(csrfTimeLimit)
    }

    /** What `DmForm.__init__` does to the shared settings. Nothing turns
        `csrf` back on once a configuration without CSRF switched it off. */
    method Configure(config: Config) returns (r: Result<(), Exception>)
      requires Valid()
      modifies this
      ensures Valid()
      ensures ConfiguredBy(config)
      ensures !old(csrf) ==> !csrf
      ensures r.Failure? <==> config.csrfEnabled && config.csrfTimeLimit.None?
      ensures r.Failure? ==> r.error == KeyError
    {
      if config.csrfEnabled {
        csrfSecret := Some(config.secretKey);
        if config.csrfTimeLimit.None? {
          return Failure(KeyError);
        }
        csrfTimeLimit := config.csrfTimeLimit;
      } else if config.csrfFaked {
        csrfClass := FakeCsrf;
      } else {
        csrf := false;
        csrfClass := NoCsrfClass;
      }
      return Success(());
    }
  }

  /** `form.validate()` of a form holding only the CSRF field; the session
      check of the real implementation is the parameter `sessionValid`. */
  function CsrfValid(meta: FormMeta, token: Option<string>, sessionValid: string -> bool): (b: bool)
    requires meta.Valid()
    reads meta
    ensures !meta.csrf ==> b
    ensures meta.csrf && meta.csrfClass == FakeCsrf ==> (b <==> token == Some(ValidFakeCsrfToken))
    ensures meta.csrf && meta.csrfClass == SessionCsrf ==> (b <==> token.Some? && sessionValid(token.value))
  {
    if !meta.csrf then true
    else match meta.csrfClass
      case SessionCsrf => token.Some? && sessionValid(token.value)
      case FakeCsrf => FakeValidateCsrfToken(token).Success?
  }

  /** `is_csrf_token_valid()`, over the shared `Meta`, the settings, the
      submitted form and the session check. With CSRF neither enabled nor
      faked every request passes; otherwise a form without `csrf_token`
      fails, and one with it is judged by a freshly configured form. */
  method IsCsrfTokenValid(meta: FormMeta, config: Config, requestForm: map<string, string>,
                          sessionValid: string -> bool) returns (r: Result<bool, Exception>)
    requires meta.Valid()
    modifies meta
    ensures meta.Valid()
    ensures !config.csrfEnabled && !config.csrfFaked ==> r == Success(true) && unchanged(meta)
    ensures (config.csrfEnabled || config.csrfFaked) && "csrf_token" !in requestForm ==>
              r == Success(false) && unchanged(meta)
    ensures (config.csrfEnabled || config.csrfFaked) && "csrf_token" in requestForm ==> meta.ConfiguredBy(config)
    ensures r.Failure? <==> config.csrfEnabled && config.csrfTimeLimit.None? && "csrf_token" in requestForm
    ensures r.Failure? ==> r.error == KeyError
    ensures r.Success? && (config.csrfEnabled || config.csrfFaked) && "csrf_token" in requestForm ==>
              r.value == CsrfValid(meta, Some(requestForm["csrf_token"]), sessionValid)
    ensures config.csrfEnabled && config.csrfTimeLimit.Some? && "csrf_token" in requestForm ==>
              var token := requestForm["csrf_token"];
              r == Success(|| !old(meta.csrf)
                           || (old(meta.csrfClass) == SessionCsrf && sessionValid(token))
                           || (old(meta.csrfClass) == FakeCsrf && token == ValidFakeCsrfToken))
    ensures !config.csrfEnabled && config.csrfFaked && "csrf_token" in requestForm ==>
              r == Success(!old(meta.csrf) || requestForm["csrf_token"] == ValidFakeCsrfToken)
  {
    if !config.csrfEnabled && !config.csrfFaked {
      return Success(true);
    }
    if "csrf_token" !in requestForm {
      return Success(false);
    }
    var configured := meta.Configure(config);
    if configured.Failure? {
      return Failure(configured.error);
    }
    return Success(CsrfValid(meta, Some(requestForm["csrf_token"]), sessionValid));
  }

  // ---------------------------------------------------------------- caching of CSRF pages

  /** `min(DM_DEFAULT_CACHE_MAX_AGE, CSRF_TIME_LIMIT)`, the limit defaulting
      to the cache age. */
  function CsrfMaxAge(config: Config): (m: int)
    ensures m <= config.defaultCacheMaxAge
    ensures config.csrfTimeLimit.Some? ==> m <= config.csrfTimeLimit.value
    ensures m == config.defaultCacheMaxAge || (config.csrfTimeLimit.Some? && m == config.csrfTimeLimit.value)
  {
    var limit := if config.csrfTimeLimit.Some? then config.csrfTimeLimit.value else config.defaultCacheMaxAge;
    if limit < config.defaultCacheMaxAge then limit else config.defaultCacheMaxAge
  }

  /** The response part of `render_template_with_csrf(...)`: building the
      default form configures the shared `Meta`; the page is private and
      cached no longer than the CSRF token lives. */
  method RenderTemplateWithCsrf(meta: FormMeta, config: Config, statusCode: int, formGiven: bool)
    returns (r: Result<(Response, int), Exception>)
    requires meta.Valid()
    modifies meta
    ensures meta.Valid()
    ensures formGiven ==> r.Success? && unchanged(meta)
    ensures !formGiven ==> meta.ConfiguredBy(config)
    ensures r.Failure? <==> !formGiven && config.csrfEnabled && config.csrfTimeLimit.None?
    ensures r.Failure? ==> r.error == KeyError
    ensures r.Success? ==>
              && fresh(r.value.0) && r.value.1 == statusCode
              && r.value.0.statusCode == 200 && r.value.0.headers == map[]
              && r.value.0.cachePrivate && r.value.0.maxAge == Some(CsrfMaxAge(config))
  {
    if !formGiven {
      var configured := meta.Configure(config);
      if configured.Failure? {
        return Failure(configured.error);
      }
    }
    var response := new Response(200);
    response.cachePrivate := true;
    response.maxAge := Some(CsrfMaxAge(config));
    return Success((response, statusCode));
  }
}
