/** dmutils/data_tools.py: normalisation and checksum validation of Australian
    Company Numbers (ACN) and Australian Business Numbers (ABN), and the string
    preparation that `parse_money` does before its decimal conversion. */
module DataTools {
  import opened Common

  /** What the helpers raise: `ValidationError(message)`, or the bare
      ValueError of `int(c)` on a character that is not a digit. */
  datatype DataError = ValidationError(message: string) | NotAnInteger

  /** The characters `re.sub('(\s|-)', '', s)` removes: `\s` without
      re.UNICODE is ASCII whitespace. */
  predicate IsSeparator(c: char)
  {
    IsAsciiWhitespace(c) || c == '-'
  }

  predicate IsComma(c: char) { c == ',' }

  const AcnWeights: seq<int> := [8, 7, 6, 5, 4, 3, 2, 1, 1]
  const AbnWeights: seq<int> := [10, 1, 3, 5, 7, 9, 11, 13, 15, 17, 19]

  function StripSeparators(s: string): (r: string)
    ensures forall c :: c in r ==> c in s && !IsSeparator(c)
  {
    WithoutExcludes(s, IsSeparator);
    Without(s, IsSeparator)
  }

  /** `re.match('[0-9]{n}', s)` succeeds: `s` BEGINS with `n` digits (no end anchor). */
  predicate BeginsWithDigits(s: string, n: nat)
  {
    n <= |s| && forall i :: 0 <= i < n ==> IsDigit(s[i])
  }

  /** `map(int, s)` on a string of digits. */
  function DigitValues(s: string): (ds: seq<int>)
    requires AllDigits(s)
    ensures |ds| == |s|
    ensures forall i :: 0 <= i < |s| ==> ds[i] == DigitValue(s[i])
  {
    seq(|s|, i requires 0 <= i < |s| => DigitValue(s[i]))
  }

  /** `sum(w * d for w, d in zip(weights, digits))` over the pairs from
      position `k` on: `zip` stops at the shorter input. */
  function ZipSum(w: seq<int>, d: seq<int>, k: nat): int
    decreases |w| - k
  {
    if k >= |w| || k >= |d| then 0
    else w[k] * d[k] + ZipSum(w, d, k + 1)
  }

  /** Changing one digit changes the zip-sum by its weight times the change. */
  lemma {:induction false} ZipSumUpdate(w: seq<int>, d: seq<int>, k: nat, i: nat, delta: int)
    requires k <= i < |w| && i < |d|
    ensures ZipSum(w, d[i := d[i] + delta], k) == ZipSum(w, d, k) + w[i] * delta
    decreases |w| - k
  {
    if k < i {
      ZipSumUpdate(w, d, k + 1, i, delta);
    } else {
      ZipSumAgrees(w, d, d[i := d[i] + delta], k + 1);
    }
  }

  /** The zip-sum from `k` on reads only positions `k` and later. */
  lemma {:induction false} ZipSumAgrees(w: seq<int>, d: seq<int>, e: seq<int>, k: nat)
    requires |d| == |e| && forall j :: k <= j < |d| ==> d[j] == e[j]
    ensures ZipSum(w, d, k) == ZipSum(w, e, k)
    decreases |w| - k
  {
    if k < |w| && k < |d| {
      ZipSumAgrees(w, d, e, k + 1);
    }
  }

  // ---------------------------------------------------------------- ACN

  /** The ASIC check-digit rule, written independently of the zip-sum: the
      ninth digit is the ten's complement, modulo 10, of the weighted sum of
      the first eight with weights 8, 7, …, 1. */
  predicate AcnCheckDigitHolds(ds: seq<int>)
    requires |ds| >= 9
  {
    var s := 8 * ds[0] + 7 * ds[1] + 6 * ds[2] + 5 * ds[3] + 4 * ds[4] + 3 * ds[5] + 2 * ds[6] + ds[7];
    ds[8] == (10 - s % 10) % 10
  }

  /** The zip-sum of the ACN weights with the digits is a multiple of 10
      exactly when the check digit rule holds; digits past the ninth are
      never weighed. */
  lemma AcnChecksumIsCheckDigit(ds: seq<int>)
    requires |ds| >= 9 && 0 <= ds[8] <= 9
    ensures (ZipSum(AcnWeights, ds, 0) % 10 == 0) <==> AcnCheckDigitHolds(ds)
  {
    var w := AcnWeights;
    assert ZipSum(w, ds, 9) == 0;
    assert ZipSum(w, ds, 8) == ds[8];
    assert ZipSum(w, ds, 7) == ds[7] + ds[8];
    assert ZipSum(w, ds, 6) == 2 * ds[6] + ds[7] + ds[8];
    assert ZipSum(w, ds, 5) == 3 * ds[5] + 2 * ds[6] + ds[7] + ds[8];
    assert ZipSum(w, ds, 4) == 4 * ds[4] + 3 * ds[5] + 2 * ds[6] + ds[7] + ds[8];
    assert ZipSum(w, ds, 3) == 5 * ds[3] + 4 * ds[4] + 3 * ds[5] + 2 * ds[6] + ds[7] + ds[8];
    assert ZipSum(w, ds, 2) == 6 * ds[2] + 5 * ds[3] + 4 * ds[4] + 3 * ds[5] + 2 * ds[6] + ds[7] + ds[8];
    assert ZipSum(w, ds, 1) == 7 * ds[1] + 6 * ds[2] + 5 * ds[3] + 4 * ds[4] + 3 * ds[5] + 2 * ds[6] + ds[7] + ds[8];
    var s := 8 * ds[0] + 7 * ds[1] + 6 * ds[2] + 5 * ds[3] + 4 * ds[4] + 3 * ds[5] + 2 * ds[6] + ds[7];
    assert ZipSum(w, ds, 0) == s + ds[8];
    ModComplement(s, ds[8]);
  }

  /** `(s + d) % 10 == 0` exactly when `d` is the ten's complement of `s`. */
  lemma ModComplement(s: int, d: int)
    requires 0 <= d <= 9
    ensures ((s + d) % 10 == 0) <==> d == (10 - s % 10) % 10
  {
    var m := s % 10;
    assert s == 10 * (s / 10) + m;
    assert (s + d) % 10 == (m + d) % 10;
  }

  /** `'{} {} {}'.format(acn[0:3], acn[3:6], acn[6:9])`. */
  function AcnLayout(acn: string): (r: string)
    requires |acn| >= 9
    ensures |r| == 11 && r[3] == ' ' && r[7] == ' '
    ensures forall i :: 0 <= i < 3 ==> r[i] == acn[i]
    ensures forall i :: 3 <= i < 6 ==> r[i + 1] == acn[i]
    ensures forall i :: 6 <= i < 9 ==> r[i + 2] == acn[i]
  {
    acn[0..3] + " " + acn[3..6] + " " + acn[6..9]
  }

  /** Two messages whose texts begin differently stay different after the
      same text is appended to both. */
  lemma MessagesDiffer(a: string, b: string, original: string)
    requires a != [] && b != [] && a[0] != b[0]
    ensures ValidationError(a + original) != ValidationError(b + original)
  {
    assert (a + original)[0] == a[0] && (b + original)[0] == b[0];
  }

  /** `normalise_acn(original_acn)`. Success exactly when, once whitespace and
      dashes are gone, the text begins with nine digits, holds nothing but
      digits, and its first nine digits satisfy the check digit rule; the
      result is those nine digits in three groups of three. */
  function NormaliseAcn(original: string): (r: Result<string, DataError>)
    ensures var acn := StripSeparators(original);
            r.Success? <==> BeginsWithDigits(acn, 9) && AllDigits(acn) && AcnCheckDigitHolds(DigitValues(acn))
    ensures var acn := StripSeparators(original);
            r.Success? ==> BeginsWithDigits(acn, 9) && r.value == AcnLayout(acn)
    ensures r == Failure(NotAnInteger) <==>
              BeginsWithDigits(StripSeparators(original), 9) && !AllDigits(StripSeparators(original))
    ensures r == Failure(ValidationError("Invalid ACN: " + original)) <==>
              !BeginsWithDigits(StripSeparators(original), 9)
    ensures var acn := StripSeparators(original);
            r == Failure(ValidationError("Checksum failure for ACN: " + original)) <==>
              BeginsWithDigits(acn, 9) && AllDigits(acn) && !AcnCheckDigitHolds(DigitValues(acn))
  {
    var acn := StripSeparators(original);
    MessagesDiffer("Invalid ACN: ", "Checksum failure for ACN: ", original);
    if !BeginsWithDigits(acn, 9) then Failure(ValidationError("Invalid ACN: " + original))
    else if !AllDigits(acn) then Failure(NotAnInteger)
    else if ZipSum(AcnWeights, DigitValues(acn), 0) % 10 != 0 then
      AcnChecksumIsCheckDigit(DigitValues(acn));
      Failure(ValidationError("Checksum failure for ACN: " + original))
    else
      AcnChecksumIsCheckDigit(DigitValues(acn));
      Success(AcnLayout(acn))
  }

  // ---------------------------------------------------------------- ABN

  /** The ABR checksum of an ABN's digits: one less than the first digit, then
      the weights 10, 1, 3, 5, …, 19. */
  function AbnChecksum(ds: seq<int>): int
    requires |ds| >= 11
  {
    10 * (ds[0] - 1) + ds[1] + 3 * ds[2] + 5 * ds[3] + 7 * ds[4] + 9 * ds[5]
      + 11 * ds[6] + 13 * ds[7] + 15 * ds[8] + 17 * ds[9] + 19 * ds[10]
  }

  /** The zip-sum over the digits with the first one decremented is the ABR
      checksum; digits past the eleventh are never weighed. */
  lemma AbnZipSumIsChecksum(ds: seq<int>)
    requires |ds| >= 11
    ensures ZipSum(AbnWeights, ds[0 := ds[0] - 1], 0) == AbnChecksum(ds)
  {
    var w := AbnWeights;
    var d := ds[0 := ds[0] - 1];
    assert ZipSum(w, d, 11) == 0;
    assert ZipSum(w, d, 10) == 19 * d[10];
    assert ZipSum(w, d, 9) == 17 * d[9] + 19 * d[10];
    assert ZipSum(w, d, 8) == 15 * d[8] + 17 * d[9] + 19 * d[10];
    assert ZipSum(w, d, 7) == 13 * d[7] + 15 * d[8] + 17 * d[9] + 19 * d[10];
    assert ZipSum(w, d, 6) == 11 * d[6] + 13 * d[7] + 15 * d[8] + 17 * d[9] + 19 * d[10];
    assert ZipSum(w, d, 5) == 9 * d[5] + 11 * d[6] + 13 * d[7] + 15 * d[8] + 17 * d[9] + 19 * d[10];
    assert ZipSum(w, d, 4) == 7 * d[4] + 9 * d[5] + 11 * d[6] + 13 * d[7] + 15 * d[8] + 17 * d[9] + 19 * d[10];
    assert ZipSum(w, d, 3) == 5 * d[3] + 7 * d[4] + 9 * d[5] + 11 * d[6] + 13 * d[7] + 15 * d[8] + 17 * d[9] + 19 * d[10];
    assert ZipSum(w, d, 2) == 3 * d[2] + 5 * d[3] + 7 * d[4] + 9 * d[5] + 11 * d[6] + 13 * d[7] + 15 * d[8] + 17 * d[9] + 19 * d[10];
    assert ZipSum(w, d, 1) == d[1] + 3 * d[2] + 5 * d[3] + 7 * d[4] + 9 * d[5] + 11 * d[6] + 13 * d[7] + 15 * d[8] + 17 * d[9] + 19 * d[10];
  }

  /** `'{} {} {} {}'.format(abn[0:2], abn[2:5], abn[5:8], abn[8:11])`. */
  function AbnLayout(abn: string): (r: string)
    requires |abn| >= 11
    ensures |r| == 14 && r[2] == ' ' && r[6] == ' ' && r[10] == ' '
    ensures forall i :: 0 <= i < 2 ==> r[i] == abn[i]
    ensures forall i :: 2 <= i < 5 ==> r[i + 1] == abn[i]
    ensures forall i :: 5 <= i < 8 ==> r[i + 2] == abn[i]
    ensures forall i :: 8 <= i < 11 ==> r[i + 3] == abn[i]
  {
    abn[0..2] + " " + abn[2..5] + " " + abn[5..8] + " " + abn[8..11]
  }

  /** `normalise_abn(original_abn)`. Success exactly when, once whitespace and
      dashes are gone, the text begins with eleven digits the first of which
      is not 0, holds nothing but digits, and its first eleven digits have an
      ABR checksum divisible by 89; the result is those digits grouped 2-3-3-3. */
  function NormaliseAbn(original: string): (r: Result<string, DataError>)
    ensures var abn := StripSeparators(original);
            r.Success? <==> && BeginsWithDigits(abn, 11) && abn[0] != '0' && AllDigits(abn)
                            && AbnChecksum(DigitValues(abn)) % 89 == 0
    ensures var abn := StripSeparators(original);
            r.Success? ==> BeginsWithDigits(abn, 11) && r.value == AbnLayout(abn)
    ensures r == Failure(NotAnInteger) <==>
              && BeginsWithDigits(StripSeparators(original), 11) && StripSeparators(original)[0] != '0'
              && !AllDigits(StripSeparators(original))
    ensures r == Failure(ValidationError("Invalid ABN: " + original)) <==>
              !BeginsWithDigits(StripSeparators(original), 11) || StripSeparators(original)[0] == '0'
    ensures var abn := StripSeparators(original);
            r == Failure(ValidationError("Checksum failure for ABN: " + original)) <==>
              && BeginsWithDigits(abn, 11) && abn[0] != '0' && AllDigits(abn)
              && AbnChecksum(DigitValues(abn)) % 89 != 0
  {
    var abn := StripSeparators(original);
    MessagesDiffer("Invalid ABN: ", "Checksum failure for ABN: ", original);
    if !BeginsWithDigits(abn, 11) || abn[0] == '0' then Failure(ValidationError("Invalid ABN: " + original))
    else if !AllDigits(abn) then Failure(NotAnInteger)
    else
      var digits := DigitValues(abn);
      var adjusted := digits[0 := digits[0] - 1];
      AbnZipSumIsChecksum(digits);
      if ZipSum(AbnWeights, adjusted, 0) % 89 != 0 then
        Failure(ValidationError("Checksum failure for ABN: " + original))
      else
        Success(AbnLayout(abn))
  }

  // ---------------------------------------------------------------- properties

  /** Spacing and dashes do not matter: two inputs with the same characters
      once separators are removed normalise alike (up to the original text
      quoted in error messages). */
  lemma SpacingInvariant(a: string, b: string)
    requires StripSeparators(a) == StripSeparators(b)
    ensures NormaliseAcn(a).Success? == NormaliseAcn(b).Success?
    ensures NormaliseAcn(a).Success? ==> NormaliseAcn(a) == NormaliseAcn(b)
    ensures NormaliseAbn(a).Success? == NormaliseAbn(b).Success?
    ensures NormaliseAbn(a).Success? ==> NormaliseAbn(a) == NormaliseAbn(b)
  {
  }

  /** None of the characters of `s` is in `bad`. */
  predicate NoneIn(s: string, bad: char -> bool)
  {
    forall c :: c in s ==> !bad(c)
  }

  lemma DigitsAreNotSeparators(s: string)
    requires AllDigits(s)
    ensures NoneIn(s, IsSeparator)
  {
    forall c | c in s ensures !IsSeparator(c) {
      var k :| 0 <= k < |s| && s[k] == c;
      assert IsDigit(s[k]);
    }
  }

  /** Removing a set of characters from `a ‖ x ‖ b`, where `x` is in the set
      and neither `a` nor `b` holds any of it, leaves `a ‖ b`. */
  lemma DropSeparator(a: string, x: char, b: string, bad: char -> bool)
    requires bad(x) && NoneIn(a, bad) && NoneIn(b, bad)
    ensures Without(a + [x] + b, bad) == a + b
  {
    WithoutConcat(a + [x], b, bad);
    assert Without(a + [x] + b, bad) == Without(a + [x], bad) + Without(b, bad);
    WithoutConcat(a, [x], bad);
    assert Without(a + [x], bad) == Without(a, bad);
    WithoutNone(a, bad);
    WithoutNone(b, bad);
  }

  /** Removing characters that neither part holds changes nothing. */
  lemma DropSeparatorFree(a: string, b: string, bad: char -> bool)
    requires NoneIn(a, bad) && NoneIn(b, bad)
    ensures Without(a + b, bad) == a + b
  {
    WithoutConcat(a, b, bad);
    WithoutNone(a, bad);
    WithoutNone(b, bad);
  }

  /** Removing separators from a group, a space and the remaining groups. */
  lemma DropSpaceBefore(head: string, group: string)
    requires NoneIn(group, IsSeparator)
    ensures StripSeparators(head + " " + group) == StripSeparators(head) + group
  {
    WithoutConcat(head, " " + group, IsSeparator);
    assert head + " " + group == head + (" " + group);
    DropSeparator([], ' ', group, IsSeparator);
    assert [] + [' '] + group == " " + group;
  }

  /** Normalisation reads only the first nine digits of a digit string. */
  lemma AcnPrefixDecides(acn: string, acn': string)
    requires |acn| >= 9 && |acn'| >= 9 && AllDigits(acn) && AllDigits(acn') && acn[..9] == acn'[..9]
    ensures AcnCheckDigitHolds(DigitValues(acn)) == AcnCheckDigitHolds(DigitValues(acn'))
    ensures AcnLayout(acn) == AcnLayout(acn')
  {
    assert acn[0..3] == acn'[0..3] && acn[3..6] == acn'[3..6] && acn[6..9] == acn'[6..9] by {
      assert acn[0..3] == acn[..9][0..3] && acn'[0..3] == acn'[..9][0..3];
      assert acn[3..6] == acn[..9][3..6] && acn'[3..6] == acn'[..9][3..6];
      assert acn[6..9] == acn[..9][6..9] && acn'[6..9] == acn'[..9][6..9];
    }
    forall k | 0 <= k < 9 ensures acn[k] == acn'[k] {
      assert acn[k] == acn[..9][k] && acn'[k] == acn'[..9][k];
    }
  }

  /** The canonical ACN form normalises to itself. */
  lemma AcnIdempotent(original: string)
    requires NormaliseAcn(original).Success?
    ensures NormaliseAcn(NormaliseAcn(original).value) == NormaliseAcn(original)
  {
    var acn := StripSeparators(original);
    var a, b, c := acn[0..3], acn[3..6], acn[6..9];
    assert AllDigits(a) && AllDigits(b) && AllDigits(c);
    DigitsAreNotSeparators(a);
    DigitsAreNotSeparators(b);
    DigitsAreNotSeparators(c);
    WithoutNone(a, IsSeparator);
    DropSpaceBefore(a, b);
    DropSpaceBefore(a + " " + b, c);
    assert a + b + c == acn[..9];
    var acn' := StripSeparators(AcnLayout(acn));
    assert acn' == acn[..9];
    assert acn'[..9] == acn[..9];
    AcnPrefixDecides(acn, acn');
  }

  /** The eleven-digit counterpart of `AcnPrefixDecides`. */
  lemma AbnPrefixDecides(abn: string, abn': string)
    requires |abn| >= 11 && |abn'| >= 11 && AllDigits(abn) && AllDigits(abn') && abn[..11] == abn'[..11]
    ensures AbnChecksum(DigitValues(abn)) == AbnChecksum(DigitValues(abn'))
    ensures AbnLayout(abn) == AbnLayout(abn')
  {
    assert abn[0..2] == abn'[0..2] && abn[2..5] == abn'[2..5] by {
      assert abn[0..2] == abn[..11][0..2] && abn'[0..2] == abn'[..11][0..2];
      assert abn[2..5] == abn[..11][2..5] && abn'[2..5] == abn'[..11][2..5];
    }
    assert abn[5..8] == abn'[5..8] && abn[8..11] == abn'[8..11] by {
      assert abn[5..8] == abn[..11][5..8] && abn'[5..8] == abn'[..11][5..8];
      assert abn[8..11] == abn[..11][8..11] && abn'[8..11] == abn'[..11][8..11];
    }
    forall k | 0 <= k < 11 ensures abn[k] == abn'[k] {
      assert abn[k] == abn[..11][k] && abn'[k] == abn'[..11][k];
    }
  }

  /** The canonical ABN form normalises to itself. */
  lemma AbnIdempotent(original: string)
    requires NormaliseAbn(original).Success?
    ensures NormaliseAbn(NormaliseAbn(original).value) == NormaliseAbn(original)
  {
    var abn := StripSeparators(original);
    var a, b, c, d := abn[0..2], abn[2..5], abn[5..8], abn[8..11];
    assert AllDigits(a) && AllDigits(b) && AllDigits(c) && AllDigits(d);
    DigitsAreNotSeparators(a);
    DigitsAreNotSeparators(b);
    DigitsAreNotSeparators(c);
    DigitsAreNotSeparators(d);
    WithoutNone(a, IsSeparator);
    DropSpaceBefore(a, b);
    DropSpaceBefore(a + " " + b, c);
    DropSpaceBefore(a + " " + b + " " + c, d);
    assert a + b + c + d == abn[..11];
    var abn' := StripSeparators(AbnLayout(abn));
    assert abn' == abn[..11];
    assert abn'[..11] == abn[..11];
    AbnPrefixDecides(abn, abn');
  }

  /** Because `re.match` anchors only at the start and `zip` stops at nine
      weights, digits after the ninth are ignored. */
  lemma AcnTrailingDigitIgnored(original: string, d: char)
    requires NormaliseAcn(original).Success? && IsDigit(d)
    ensures NormaliseAcn(original + [d]) == NormaliseAcn(original)
  {
    var acn := StripSeparators(original);
    assert !IsSeparator(d);
    WithoutConcat(original, [d], IsSeparator);
    assert StripSeparators(original + [d]) == acn + [d];
    assert (acn + [d])[..9] == acn[..9];
    AcnPrefixDecides(acn, acn + [d]);
  }

  /** A trailing character that is neither a digit nor a separator passes the
      start-anchored format check and then makes `int` raise ValueError
      rather than ValidationError. */
  lemma AcnTrailingLetterNotAnInteger(original: string, x: char)
    requires NormaliseAcn(original).Success? && !IsDigit(x) && !IsSeparator(x)
    ensures NormaliseAcn(original + [x]) == Failure(NotAnInteger)
  {
    var acn := StripSeparators(original);
    WithoutConcat(original, [x], IsSeparator);
    assert StripSeparators(original + [x]) == acn + [x];
    assert (acn + [x])[|acn|] == x;
  }

  /** A digit string has no separators to remove. */
  lemma CanonicalDigits(s: string)
    requires AllDigits(s)
    ensures StripSeparators(s) == s
  {
    DigitsAreNotSeparators(s);
    WithoutNone(s, IsSeparator);
  }

  /** Changing digit `i` of an ABN by `delta` moves the checksum by its
      weight times `delta`. */
  lemma AbnChecksumShift(ds: seq<int>, i: nat, delta: int)
    requires |ds| == 11 && i < 11
    ensures AbnChecksum(ds[i := ds[i] + delta]) == AbnChecksum(ds) + AbnWeights[i] * delta
  {
    var ds' := ds[i := ds[i] + delta];
    var adjusted := ds[0 := ds[0] - 1];
    AbnZipSumIsChecksum(ds);
    AbnZipSumIsChecksum(ds');
    var lhs, rhs := ds'[0 := ds'[0] - 1], adjusted[i := adjusted[i] + delta];
    forall j | 0 <= j < 11 ensures lhs[j] == rhs[j] {
    }
    assert lhs == rhs;
    ZipSumUpdate(AbnWeights, adjusted, 0, i, delta);
  }

  /** A multiple of 89 moved by a weight below 20 times a nonzero digit
      difference is no longer a multiple of 89. */
  lemma ShiftLeaves89(sum: int, w: int, delta: int)
    requires sum % 89 == 0 && 1 <= w <= 19 && -9 <= delta <= 9 && delta != 0
    ensures (sum + w * delta) % 89 != 0
  {
    var p := w * delta;
    assert p != 0 && -171 <= p <= 171 by {
      if delta > 0 {
        assert 0 < w * delta <= 171;
      } else {
        assert -171 <= w * delta < 0;
      }
    }
    assert sum == 89 * (sum / 89);
    ModShift89(p, sum / 89);
  }

  /** Mistyping one digit of a canonical (separator-free) valid ABN is always
      caught: every weight is below 89, 89 is prime, and a digit moves by
      less than 89. */
  lemma AbnDetectsSingleDigitChange(abn: string, i: nat, c: char)
    requires |abn| == 11 && AllDigits(abn) && NormaliseAbn(abn).Success?
    requires i < 11 && IsDigit(c) && c != abn[i]
    ensures NormaliseAbn(abn[i := c]).Failure?
  {
    DigitValuesUpdate(abn, i, c);
    DigitValueInjective(c, abn[i]);
    AbnOfDigits(abn);
    AbnChangeBreaksChecksum(DigitValues(abn), i, DigitValue(c));
    AbnOfDigits(abn[i := c]);
  }

  /** A checksum that is a multiple of 89 stops being one when one digit
      changes to another digit. */
  lemma AbnChangeBreaksChecksum(ds: seq<int>, i: nat, v: int)
    requires |ds| == 11 && AbnChecksum(ds) % 89 == 0
    requires i < 11 && 0 <= ds[i] <= 9 && 0 <= v <= 9 && v != ds[i]
    ensures AbnChecksum(ds[i := v]) % 89 != 0
  {
    AbnChecksumShift(ds, i, v - ds[i]);
    assert ds[i := ds[i] + (v - ds[i])] == ds[i := v];
    assert 1 <= AbnWeights[i] <= 19;
    ShiftLeaves89(AbnChecksum(ds), AbnWeights[i], v - ds[i]);
  }

  /** On a bare eleven-digit string, normalisation succeeds exactly when the
      first digit is not 0 and the ABR checksum is a multiple of 89. */
  lemma AbnOfDigits(abn: string)
    requires |abn| == 11 && AllDigits(abn)
    ensures NormaliseAbn(abn).Success? <==> abn[0] != '0' && AbnChecksum(DigitValues(abn)) % 89 == 0
  {
    CanonicalDigits(abn);
  }

  /** Distinct digits have distinct values. */
  lemma DigitValueInjective(a: char, b: char)
    requires IsDigit(a) && IsDigit(b) && a != b
    ensures DigitValue(a) != DigitValue(b)
  {
    assert a as int != b as int;
  }

  /** Replacing one digit of a digit string replaces its value. */
  lemma DigitValuesUpdate(s: string, i: nat, c: char)
    requires AllDigits(s) && i < |s| && IsDigit(c)
    ensures AllDigits(s[i := c])
    ensures DigitValues(s[i := c]) == DigitValues(s)[i := DigitValue(c)]
  {
  }

  /** An even weight times 5 is a multiple of 10. */
  lemma EvenFiveShift(sum: int, w: int)
    requires w % 2 == 0
    ensures (sum + w * 5) % 10 == sum % 10
  {
    assert w * 5 == 10 * (w / 2);
    ModShift10(sum, w / 2);
  }

  /** The ACN rule is weaker than the ABN rule: where the weight is even
      (8, 6, 4 or 2), raising a digit by 5 moves the sum by a multiple of 10,
      so that mistyping of a valid ACN is accepted. */
  lemma AcnMissesFiveShift(acn: string, i: nat)
    requires |acn| == 9 && AllDigits(acn) && NormaliseAcn(acn).Success?
    requires i < 9 && AcnWeights[i] % 2 == 0 && acn[i] <= '4'
    ensures NormaliseAcn(acn[i := (acn[i] as int + 5) as char]).Success?
  {
    var c := (acn[i] as int + 5) as char;
    DigitValuesUpdate(acn, i, c);
    AcnOfDigits(acn);
    AcnFiveShift(DigitValues(acn), i, DigitValue(c));
    AcnOfDigits(acn[i := c]);
  }

  /** Raising a digit under an even ACN weight by 5 leaves the weighted sum's
      last decimal digit unchanged. */
  lemma AcnFiveShift(ds: seq<int>, i: nat, v: int)
    requires |ds| == 9 && i < 9 && AcnWeights[i] % 2 == 0 && v == ds[i] + 5
    ensures ZipSum(AcnWeights, ds[i := v], 0) % 10 == ZipSum(AcnWeights, ds, 0) % 10
  {
    ZipSumUpdate(AcnWeights, ds, 0, i, 5);
    EvenFiveShift(ZipSum(AcnWeights, ds, 0), AcnWeights[i]);
  }

  /** On a bare nine-digit string, normalisation succeeds exactly when the
      weighted sum is a multiple of 10. */
  lemma AcnOfDigits(acn: string)
    requires |acn| == 9 && AllDigits(acn)
    ensures NormaliseAcn(acn).Success? <==> ZipSum(AcnWeights, DigitValues(acn), 0) % 10 == 0
  {
    CanonicalDigits(acn);
    AcnChecksumIsCheckDigit(DigitValues(acn));
  }

  /** Adding a multiple of 10 leaves the last decimal digit unchanged. */
  lemma ModShift10(a: int, m: int)
    ensures (a + 10 * m) % 10 == a % 10
  {
  }

  /** Adding a multiple of 89 leaves the remainder modulo 89 unchanged. */
  lemma ModShift89(a: int, m: int)
    ensures (a + 89 * m) % 89 == a % 89
  {
  }

  // ---------------------------------------------------------------- parse_money

  /** `money_string.strip().replace(',', '')` with one leading `$` dropped. */
  function PrepareMoney(moneyString: string): (r: string)
    ensures ',' !in r
    ensures |r| <= |moneyString|
  {
    var stripped := Without(Strip(moneyString, IsUnicodeWhitespace), IsComma);
    WithoutExcludes(Strip(moneyString, IsUnicodeWhitespace), IsComma);
    if StartsWith(stripped, "$") then stripped[1..] else stripped
  }

  /** `parse_money(money_string)`, with the decimal conversion as the parameter
      `decimal` (None where `decimal.Decimal` raises InvalidOperation). */
  function ParseMoney<D>(moneyString: string, decimal: string -> Option<D>): (r: Result<D, DataError>)
    ensures r.Success? <==> decimal(PrepareMoney(moneyString)).Some?
    ensures r.Success? ==> decimal(PrepareMoney(moneyString)) == Some(r.value)
    ensures r.Failure? ==> r.error == ValidationError("Invalid money format: " + moneyString)
  {
    match decimal(PrepareMoney(moneyString))
    case Some(d) => Success(d)
    case None => Failure(ValidationError("Invalid money format: " + moneyString))
  }

  /** Whitespace around the amount is ignored: padding a string that neither
      begins nor ends with whitespace prepares it to the same text. */
  lemma PrepareMoneyPadded(a: string, s: string, b: string)
    requires forall k :: 0 <= k < |a| ==> IsUnicodeWhitespace(a[k])
    requires forall k :: 0 <= k < |b| ==> IsUnicodeWhitespace(b[k])
    requires Unpadded(s)
    ensures PrepareMoney(a + s + b) == PrepareMoney(s)
  {
    StripPadded(a, s, b, IsUnicodeWhitespace);
    StripStripped(s, IsUnicodeWhitespace);
  }

  /** Text that neither begins nor ends with whitespace, as `strip()` leaves it. */
  predicate Unpadded(s: string)
  {
    s == [] || (!IsUnicodeWhitespace(s[0]) && !IsUnicodeWhitespace(s[|s| - 1]))
  }

  /** Unpadded text that starts with neither `$` nor a comma is passed on with
      its commas removed and every other character kept, inner spaces included. */
  lemma PrepareMoneyKeeps(s: string)
    requires Unpadded(s)
    requires s == [] || (s[0] != '$' && s[0] != ',')
    ensures PrepareMoney(s) == Without(s, IsComma)
  {
    StripStripped(s, IsUnicodeWhitespace);
    var w := Without(s, IsComma);
    if s != [] {
      assert w == [s[0]] + Without(s[1..], IsComma);
      assert w[0] == s[0] != '$';
    }
    assert !StartsWith(w, "$");
  }

  /** Exactly one leading `$` is dropped: the rest loses its commas and keeps
      every other character, a second `$` included. */
  lemma PrepareMoneyDropsOneDollar(s: string)
    requires Unpadded(['$'] + s)
    ensures PrepareMoney(['$'] + s) == Without(s, IsComma)
  {
    var t := ['$'] + s;
    StripStripped(t, IsUnicodeWhitespace);
    assert t[1..] == s;
    assert Without(t, IsComma) == ['$'] + Without(s, IsComma);
  }

  /** Commas go before the `$` test, so a leading comma changes nothing. */
  lemma PrepareMoneyLeadingComma(s: string)
    requires Unpadded(s)
    ensures PrepareMoney([','] + s) == PrepareMoney(s)
  {
    var t := [','] + s;
    assert t[1..] == s;
    assert Unpadded(t) by {
      if s != [] {
        assert t[|t| - 1] == s[|s| - 1];
      }
    }
    StripStripped(t, IsUnicodeWhitespace);
    StripStripped(s, IsUnicodeWhitespace);
    assert Without(t, IsComma) == Without(s, IsComma);
  }

  /** On unpadded text the commas go first; what is left is handed on as it
      is unless it starts with `$`. With `PrepareMoneyPadded` and
      `PrepareMoneyUnpaddedDollar` this fixes the prepared text of every input. */
  lemma PrepareMoneyUnpadded(s: string)
    requires Unpadded(s) && !StartsWith(Without(s, IsComma), "$")
    ensures PrepareMoney(s) == Without(s, IsComma)
  {
    StripStripped(s, IsUnicodeWhitespace);
  }

  /** On unpadded text whose comma-free form starts with `$`, exactly that one
      `$` is dropped. */
  lemma PrepareMoneyUnpaddedDollar(s: string)
    requires Unpadded(s) && StartsWith(Without(s, IsComma), "$")
    ensures ['$'] + PrepareMoney(s) == Without(s, IsComma)
  {
    StripStripped(s, IsUnicodeWhitespace);
    var w := Without(s, IsComma);
    assert w[0] == w[..1][0] == '$';
    assert w == [w[0]] + w[1..];
  }

  /** A comma before whitespace goes, and the whitespace it hid stays. */
  lemma PrepareMoneyCommaBeforeSpace()
    ensures PrepareMoney(", 5") == " 5"
  {
    var t := ", 5";
    assert Without(t, IsComma) == Without(" 5", IsComma);
    assert Without(" 5", IsComma) == " 5";
    PrepareMoneyUnpadded(t);
  }

  /** `"$$5"` keeps its second dollar sign, so the conversion refuses it. */
  lemma PrepareMoneySecondDollarKept()
    ensures PrepareMoney("$$5") == "$5"
  {
    var dollar := "$5";
    assert Without(dollar, IsComma) == dollar;
    assert "$$5" == ['$'] + dollar;
    PrepareMoneyDropsOneDollar(dollar);
  }

  /** `"1 000"` keeps its inner space, so the conversion refuses it. */
  lemma PrepareMoneyInnerSpaceKept()
    ensures PrepareMoney("1 000") == "1 000"
  {
    var spaced := "1 000";
    assert Without(spaced, IsComma) == spaced;
    PrepareMoneyKeeps(spaced);
  }

  /** Characters of a plain amount: digits and a decimal point. */
  predicate PlainAmount(s: string)
  {
    forall i :: 0 <= i < |s| ==> IsDigit(s[i]) || s[i] == '.'
  }

  lemma PlainAmountUntouched(s: string)
    requires PlainAmount(s)
    ensures NoneIn(s, IsUnicodeWhitespace) && NoneIn(s, IsComma) && !StartsWith(s, "$")
  {
    forall c | c in s ensures !IsUnicodeWhitespace(c) && c != ',' {
      var i :| 0 <= i < |s| && s[i] == c;
      assert IsDigit(c) || c == '.';
    }
    if s != [] {
      assert IsDigit(s[0]) || s[0] == '.';
    }
  }

  /** A plain amount is passed to the conversion as it is. */
  lemma PrepareMoneyPlain(s: string)
    requires PlainAmount(s)
    ensures PrepareMoney(s) == s
  {
    PlainAmountUntouched(s);
    assert s == [] || (s[0] in s && s[|s| - 1] in s);
    StripStripped(s, IsUnicodeWhitespace);
    assert Strip(s, IsUnicodeWhitespace) == s;
    WithoutNone(s, IsComma);
    assert Without(s, IsComma) == s;
  }

  /** A leading dollar sign is dropped from a plain amount. */
  lemma PrepareMoneyDollar(amount: string)
    requires PlainAmount(amount) && amount != []
    ensures PrepareMoney(['$'] + amount) == amount
  {
    var s := ['$'] + amount;
    PlainAmountUntouched(amount);
    DollarKept(amount);
    assert StartsWith(s, "$") && s[1..] == amount;
    assert s[|s| - 1] == amount[|amount| - 1];
    StripStripped(s, IsUnicodeWhitespace);
  }

  lemma DollarKept(amount: string)
    requires NoneIn(amount, IsComma)
    ensures Without(['$'] + amount, IsComma) == ['$'] + amount
  {
    DropSeparatorFree(['$'], amount, IsComma);
  }

  /** Thousands separators are removed from a plain amount. */
  lemma PrepareMoneyThousands(high: string, low: string)
    requires PlainAmount(high) && PlainAmount(low) && high != [] && low != []
    ensures PrepareMoney(high + [','] + low) == high + low
  {
    var s := high + [','] + low;
    PlainAmountUntouched(high);
    PlainAmountUntouched(low);
    assert s[0] == high[0] && high[0] in high;
    assert s[|s| - 1] == low[|low| - 1] && low[|low| - 1] in low;
    StripStripped(s, IsUnicodeWhitespace);
    DropSeparator(high, ',', low, IsComma);
    assert (high + low)[0] == high[0];
  }

}
