# Digital Marketplace utilities, modelled in Dafny

This project models the core of `dmutils`, the shared helper package of the
Australian Digital Marketplace Flask applications, and proves properties of
that model. It covers:

- the signed, encrypted email tokens: the `salt NUL json` framing inside a
  Fernet token, the password-reset and invitation policies, and the SES
  request that `send_email` builds;
- the ACN and ABN normalisers and `parse_money`;
- document handling: extensions, file types, storage names and paths, empty
  file filtering, validation, the supplier-name sanitiser and the upload
  flow over an uploader object;
- the form helpers: the email-format and government-domain validators,
  whitespace stripping, the fake CSRF implementation, the CSRF settings
  shared by every form, token checking and the cache rule of CSRF pages;
- the user record: hydration from API JSON, its predicates, serialised
  form, session id, `load_user` and the log line;
- the `smartjoin` filter;
- the Flask hooks: `X-Frame-Options`, trailing-slash redirects, cache
  control, and `pluralize`.

Modules, one per file:

| module | file | role |
|---|---|---|
| `Common` | common.dfy | results, exceptions, characters, Python string operations |
| `Json` | json.dfy | decoded JSON, subscripting and membership, the serializer and its laws |
| `Base64Url` | base64url.dfy | URL-safe base64 (section 5 of RFC 4648) |
| `Fernet` | fernet.dfy | the Fernet token layout over an abstract authenticated cipher |
| `Email` | email.dfy | dmutils/email.py |
| `DataTools` | datatools.dfy | dmutils/data_tools.py |
| `Documents` | documents.dfy | dmutils/documents.py |
| `Http` | http.dfy | the response object the hooks change |
| `Forms` | forms.dfy | dmutils/forms.py |
| `Users` | users.dfy | dmutils/user.py |
| `Filters` | filters.dfy | dmutils/filters.py |
| `FlaskInit` | flaskinit.dfy | dmutils/flask_init.py |

The Python code is Python 2. The model follows these Python semantics:

- `re.match` anchors only at the start;
- `map(int, s)` raises ValueError on a character that is not an ASCII decimal
  digit (other Unicode digits are under "Left out");
- `zip` stops at the shorter input;
- `\s` without `re.UNICODE` is ASCII whitespace, while `unicode.strip` and
  `\s` with `re.UNICODE` use Unicode whitespace;
- dictionary membership, `.get` and subscripting raise KeyError and
  TypeError where Python does.

Collaborators the code calls are parameters of the model:

- the Fernet cipher and the JSON serializer, each with its laws as a predicate;
- the data API client;
- the S3 uploader;
- `urljoin`;
- the email hash;
- the session CSRF check.

Where the code updates objects in place, the model is imperative:

- `Documents.FileStorage` and its read position;
- `Documents.Uploader` and its log of saved files;
- `Forms.Field` and its `non_gov` flag;
- `Forms.FormMeta`, the settings every form shares;
- `Http.Response`.

Three behaviours of the code that a reader might expect otherwise:

- `decode_password_reset_token` answers `token_invalid` for every
  InvalidToken, an expired token included (dmutils/email.py:125-135).
  There is no separate answer for expiry.
- `decode_token` returns only what `json.loads` gives, not the token's
  timestamp (dmutils/email.py:97).
- `add_cache_control` only ever sets `private` to True, for a signed-in
  user (dmutils/flask_init.py:105-106). It never makes a private response
  public again, so `private` is "old private or signed in".

## Model

| member | source | states |
|---|---|---|
| `Json.Subscript` | dmutils/user.py:20 | `v[key]` succeeds exactly on a mapping holding the key, with its value; otherwise KeyError on a mapping, TypeError on anything else |
| `Json.Contains` | dmutils/email.py:159 | `key in v` is True exactly when the key, element or substring is there; it fails only on values that are neither mapping, list nor string |
| `Json.Get` | dmutils/user.py:88-89 | `.get(key, default)` gives the stored value when present and the default otherwise |
| `Base64Url.ValueOfCharOf` | dmutils/email.py:115 | decoding a base64url character gives back the 6-bit value it encodes |
| `Base64Url.QuantumRoundTrip` | dmutils/email.py:115 | three bytes encode to four characters that decode to the same bytes |
| `Base64Url.DecodeEncode` | dmutils/email.py:115 | decoding the encoding of any byte string gives the bytes back |
| `Base64Url.Encode` | dmutils/user.py:9 | `urlsafe_b64encode` writes four characters per started group of three bytes; `DecodeEncode` is its inverse |
| `Base64Url.Decode` | dmutils/email.py:115 | `urlsafe_b64decode` of well-formed text, nothing where Python raises; `DecodeEncode` makes it the inverse of `Encode` |
| `Fernet.FromToBigEndian` | dmutils/email.py:117 | `struct.unpack('>Q')` reads back the timestamp that was packed |
| `Fernet.ToFromBigEndian` | dmutils/email.py:117 | packing the unpacked value gives the same bytes |
| `Fernet.ToyCipherLawful` | dmutils/email.py:87-88 | the cipher laws the model relies on can all hold at once |
| `Fernet.KeyFromSecret` | dmutils/email.py:87 | `Fernet(secret_key)` accepts exactly secrets that base64url-decode to 32 bytes |
| `Fernet.Encrypt` | dmutils/email.py:88 | encryption fails (struct.error) exactly when the clock does not fit 64 bits |
| `Fernet.Decrypt` | dmutils/email.py:93 | every decryption failure is InvalidToken |
| `Fernet.MintedIssuedAt` | dmutils/email.py:88 | a minted token starts with the version byte and carries its issue time |
| `Fernet.DecryptEncrypt` | dmutils/email.py:88-93 | a token decrypts to its plaintext under the same key within its lifetime |
| `Fernet.DecryptExpired` | dmutils/email.py:93 | a token older than the ttl is refused under any key |
| `Fernet.DecryptWrongKey` | dmutils/email.py:93 | a token is refused under any other key |
| `Fernet.DecryptAuthentic` | dmutils/email.py:93 | whatever decrypts was minted with that key and plaintext at a time within the ttl |
| `Email.ToAddresses` | dmutils/email.py:29-30 | a single address becomes a one-element list; a list is kept |
| `Email.ReplyToAddresses` | dmutils/email.py:68 | one Reply-To address: the given one unless it is missing or empty, else the sender |
| `Email.SourceLine` | dmutils/email.py:52 | the Source is `name <email>` |
| `Email.SesRequestFor` | dmutils/email.py:51-69 | the SES request carries the normalised recipients, Reply-To, Source, subject and body |
| `Email.SesRequestExamples` | dmutils/email.py:28-69 | the request for the repository's example calls |
| `Email.SplitAtNul` | dmutils/email.py:94 | `split(b'\0', 1)` fails exactly without a NUL; otherwise the head has no NUL and the parts rebuild the input |
| `Email.FirstNulUnique` | dmutils/email.py:94 | the split at the first NUL is unique |
| `Email.FramingSplit` | dmutils/email.py:88-94 | a NUL-free salt and the JSON come back out of the frame |
| `Email.FramingSaltWithNul` | dmutils/email.py:88-94 | a salt with a NUL never comes back intact |
| `Email.GenerateToken` | dmutils/email.py:79-88 | token generation succeeds exactly with a valid key and a 64-bit clock |
| `Email.DecodeToken` | dmutils/email.py:91-97 | the key error of a bad secret; InvalidToken when decryption fails; ValueError without a NUL in the cleartext; InvalidToken when the part before the first NUL is not the salt; otherwise ValueError when `loads` fails, else the loaded value of the text after the NUL |
| `Email.TokenRoundTrip` | dmutils/email.py:79-97 | decoding a fresh token with the same key and salt gives the data back |
| `Email.TokenWrongSalt` | dmutils/email.py:95-96 | a token minted for another salt is InvalidToken |
| `Email.TokenSaltWithNul` | dmutils/email.py:94-96 | a token whose salt holds a NUL never decodes |
| `Email.TokenWrongKey` | dmutils/email.py:92-93 | a token under another key is InvalidToken |
| `Email.TokenExpired` | dmutils/email.py:93 | a token past its max age is InvalidToken |
| `Email.TokenAuthentic` | dmutils/email.py:91-97 | whatever decodes was generated with that key and salt within the max age |
| `Email.ParseFernetTimestamp` | dmutils/email.py:107-121 | a parsed timestamp is within `datetime`'s range |
| `Email.TimestampOfGenerated` | dmutils/email.py:107-121 | the timestamp of a generated token is its issue time, or OverflowError past year 9999 |
| `Email.DecodeResetAttempt` | dmutils/email.py:125-135 | the decode-and-timestamp attempt succeeds only with the decoded payload |
| `Email.DecodePasswordResetToken` | dmutils/email.py:124-147 | a token that `decode_token` refuses with InvalidToken gives `token_invalid`; its other exceptions (a bad secret, a cleartext without NUL, a payload `loads` refuses) propagate; otherwise the payload, or `token_invalid` when issued before the last password change |
| `Email.PasswordResetAccepted` | dmutils/email.py:143-147 | a fresh token issued after the last password change gives its payload |
| `Email.PasswordResetStale` | dmutils/email.py:143-145 | a token issued before the last password change gives `token_invalid` |
| `Email.PasswordResetExpired` | dmutils/email.py:126-135 | a token older than a day gives `token_invalid` |
| `Email.PasswordResetForeignSalt` | dmutils/email.py:126-135 | a token made for another purpose gives `token_invalid` |
| `Email.PasswordResetChangedAtEpoch` | dmutils/email.py:124-147 | a fresh token for a user whose last password change is recorded at the epoch gives its payload |
| `Email.PasswordResetScenario` | dmutils/email.py:124-147 | a token for a user is accepted 23 hours after issue and gives `token_invalid` 25 hours after |
| `Email.PasswordResetSameSecond` | dmutils/email.py:138-145 | a token minted in the same second as, but after, a password change is refused, because the token time has whole seconds |
| `Email.RequiredFields` | dmutils/email.py:151 | every role needs `email_address`; only suppliers need supplier code and name |
| `Email.AllPresent` | dmutils/email.py:159 | `all(field in token ...)` holds exactly when every membership test is true |
| `Email.DecodeInvitationToken` | dmutils/email.py:150-165 | an invitation is returned exactly when it decodes within seven days and holds every field its role requires; otherwise None |
| `Email.InvitationAccepted` | dmutils/email.py:150-160 | a fresh invitation with the required fields gives its payload |
| `Email.InvitationRefusedWithout` | dmutils/email.py:151-165 | a fresh invitation lacking any field the role requires gives None |
| `Email.InvitationMissingSupplierCode` | dmutils/email.py:151-165 | without a supplier code the invitation fails for suppliers and passes for other roles |
| `Email.InvitationExpired` | dmutils/email.py:157-165 | an invitation older than seven days gives None |
| `DataTools.StripSeparators` | dmutils/data_tools.py:22 | what is left holds no whitespace or dash and only input characters |
| `DataTools.DigitValues` | dmutils/data_tools.py:30 | `map(int, s)` gives each digit's value |
| `DataTools.ZipSumUpdate` | dmutils/data_tools.py:31 | changing one digit moves the weighted sum by its weight times the change |
| `DataTools.ZipSumAgrees` | dmutils/data_tools.py:31 | the weighted sum from position k reads only positions from k on |
| `DataTools.AcnChecksumIsCheckDigit` | dmutils/data_tools.py:29-33 | the weighted sum is a multiple of 10 exactly when the ninth digit is the ASIC check digit |
| `DataTools.ModComplement` | dmutils/data_tools.py:32 | `(s + d) % 10 == 0` exactly when `d` is the ten's complement of `s` |
| `DataTools.AcnLayout` | dmutils/data_tools.py:35 | the canonical ACN is the three digit groups separated by single spaces |
| `DataTools.NormaliseAcn` | dmutils/data_tools.py:12-36 | success exactly for nine leading digits after separator removal, digits only and a passing checksum; "Invalid ACN" exactly without nine leading digits, the checksum message exactly for nine digits only that fail the check, and the ValueError from `int` otherwise |
| `DataTools.AbnZipSumIsChecksum` | dmutils/data_tools.py:56-59 | the weighted sum with the first digit decremented is the ABR checksum |
| `DataTools.AbnLayout` | dmutils/data_tools.py:63 | the canonical ABN is 2-3-3-3 digit groups separated by spaces |
| `DataTools.NormaliseAbn` | dmutils/data_tools.py:39-64 | success exactly for a non-zero first digit and ten more digits, digits only and a checksum divisible by 89; "Invalid ABN" exactly without eleven leading digits or with a leading 0, the checksum message exactly for such digits that fail the check, and the ValueError from `int` otherwise |
| `DataTools.SpacingInvariant` | dmutils/data_tools.py:22-52 | inputs that differ only in whitespace and dashes normalise alike |
| `DataTools.DigitsAreNotSeparators` | dmutils/data_tools.py:22 | digits survive separator removal |
| `DataTools.DropSeparator` | dmutils/data_tools.py:22 | removing one separator between separator-free parts joins them |
| `DataTools.DropSeparatorFree` | dmutils/data_tools.py:22 | separator removal leaves separator-free text alone |
| `DataTools.DropSpaceBefore` | dmutils/data_tools.py:22 | the space before a digit group is removed |
| `DataTools.AcnPrefixDecides` | dmutils/data_tools.py:24-35 | only the first nine digits decide the result |
| `DataTools.AcnIdempotent` | dmutils/data_tools.py:12-36 | the canonical ACN normalises to itself |
| `DataTools.AbnPrefixDecides` | dmutils/data_tools.py:51-63 | only the first eleven digits decide the result |
| `DataTools.AbnIdempotent` | dmutils/data_tools.py:39-64 | the canonical ABN normalises to itself |
| `DataTools.AcnTrailingDigitIgnored` | dmutils/data_tools.py:24-31 | an extra trailing digit is accepted and dropped |
| `DataTools.AcnTrailingLetterNotAnInteger` | dmutils/data_tools.py:24-30 | a trailing letter passes the match but raises ValueError in `int` |
| `DataTools.CanonicalDigits` | dmutils/data_tools.py:22 | a digit string has nothing to remove |
| `DataTools.AbnChecksumShift` | dmutils/data_tools.py:56-59 | changing one ABN digit moves the checksum by its weight times the change |
| `DataTools.ShiftLeaves89` | dmutils/data_tools.py:60 | no weight times a single-digit change is a multiple of 89 |
| `DataTools.AbnChangeBreaksChecksum` | dmutils/data_tools.py:56-61 | a checksum divisible by 89 stops being so when one digit changes to another digit |
| `DataTools.AbnOfDigits` | dmutils/data_tools.py:39-64 | an eleven-digit string normalises exactly when its first digit is not 0 and its ABR checksum is divisible by 89 |
| `DataTools.DigitValuesUpdate` | dmutils/data_tools.py:30 | replacing one digit of a digit string replaces that digit's value and nothing else |
| `DataTools.DigitValueInjective` | dmutils/data_tools.py:30 | different digits have different values |
| `DataTools.AbnDetectsSingleDigitChange` | dmutils/data_tools.py:56-61 | every single-digit typo of a valid ABN fails the checksum |
| `DataTools.EvenFiveShift` | dmutils/data_tools.py:32 | an even weight times 5 leaves the last digit of the sum unchanged |
| `DataTools.AcnFiveShift` | dmutils/data_tools.py:29-32 | adding 5 to a digit at an even weight keeps the weighted sum's last decimal digit |
| `DataTools.AcnOfDigits` | dmutils/data_tools.py:12-36 | a nine-digit string normalises exactly when its weighted sum is a multiple of 10 |
| `DataTools.AcnMissesFiveShift` | dmutils/data_tools.py:29-33 | adding 5 to a digit at an even weight keeps a valid ACN valid |
| `DataTools.ModShift10` | dmutils/data_tools.py:32 | adding a multiple of 10 keeps the remainder mod 10 |
| `DataTools.ModShift89` | dmutils/data_tools.py:60 | adding a multiple of 89 keeps the remainder mod 89 |
| `DataTools.PrepareMoney` | dmutils/data_tools.py:77-80 | the text handed to `Decimal` has no comma and is no longer than the input; `PrepareMoneyPadded`, `PrepareMoneyUnpadded` and `PrepareMoneyUnpaddedDollar` together fix it for every input |
| `DataTools.PrepareMoneyPadded` | dmutils/data_tools.py:77 | whitespace around the amount does not change the text handed to `Decimal` |
| `DataTools.PrepareMoneyUnpadded` | dmutils/data_tools.py:77-80 | text without outer whitespace whose comma-free form does not start with `$` is handed on as that comma-free form |
| `DataTools.PrepareMoneyUnpaddedDollar` | dmutils/data_tools.py:77-80 | when that comma-free form starts with `$`, exactly the one `$` is dropped |
| `DataTools.PrepareMoneyCommaBeforeSpace` | dmutils/data_tools.py:77 | `", 5"` is handed on as `" 5"`: the space a comma hid is not stripped |
| `DataTools.PrepareMoneyKeeps` | dmutils/data_tools.py:77-80 | unpadded text starting with neither `$` nor a comma loses its commas and keeps every other character |
| `DataTools.PrepareMoneyDropsOneDollar` | dmutils/data_tools.py:77-80 | exactly one leading `$` is dropped; the rest loses its commas and keeps every other character |
| `DataTools.PrepareMoneyLeadingComma` | dmutils/data_tools.py:77-80 | commas go before the `$` test, so a leading comma changes nothing |
| `DataTools.PrepareMoneySecondDollarKept` | dmutils/data_tools.py:79-80 | `"$$5"` is handed on as `"$5"` |
| `DataTools.PrepareMoneyInnerSpaceKept` | dmutils/data_tools.py:77 | `"1 000"` keeps its inner space |
| `DataTools.ParseMoney` | dmutils/data_tools.py:67-85 | success exactly when the conversion accepts the prepared text; else the ValidationError naming the input |
| `DataTools.PlainAmountUntouched` | dmutils/data_tools.py:77-80 | a plain amount has no whitespace, comma or leading dollar |
| `DataTools.PrepareMoneyPlain` | dmutils/data_tools.py:77-80 | a plain amount is passed on unchanged |
| `DataTools.PrepareMoneyDollar` | dmutils/data_tools.py:79-80 | a leading dollar sign is dropped |
| `DataTools.DollarKept` | dmutils/data_tools.py:77 | comma removal keeps the dollar sign |
| `DataTools.PrepareMoneyThousands` | dmutils/data_tools.py:77 | thousands separators are removed |
| `Documents.RFind` | dmutils/documents.py:204 | the index of the last occurrence, -1 exactly when absent |
| `Documents.SplitExt` | dmutils/documents.py:204 | `splitext` parts rebuild the path; the extension is empty or one dot then no dot or slash |
| `Documents.GetExtension` | dmutils/documents.py:203-205 | the lower-cased extension of `splitext`; its shape is stated by `ExtensionShape` |
| `Documents.ExtensionShape` | dmutils/documents.py:203-205 | the extension is a lower-case suffix of the lower-cased name |
| `Documents.LowerSuffix` | dmutils/documents.py:205 | lower-casing commutes with taking a suffix |
| `Documents.LowerKeeps` | dmutils/documents.py:205 | lower-casing keeps non-letters |
| `Documents.LowerIdempotent` | dmutils/documents.py:205 | lower-casing twice is lower-casing once |
| `Documents.SplitExtOfName` | dmutils/documents.py:204 | `stem.ext` splits into the stem and `.ext` |
| `Documents.SplitExtAt` | dmutils/documents.py:204 | a path splits at a dot with no dot or slash after it and neither before it |
| `Documents.NoExtensionAfterLastSlash` | dmutils/documents.py:204 | a dot in a directory name is not an extension |
| `Documents.HiddenFileHasNoExtension` | dmutils/documents.py:204 | a leading-dot file name has no extension |
| `Documents.IsOpenDocumentFormat` | dmutils/documents.py:143-146 | the extension is one of `.pdf`, `.pda`, `.odt`, `.ods`, `.odp` |
| `Documents.IsPdf` | dmutils/documents.py:149-153 | the extension is `.pdf` or `.pda` |
| `Documents.IsCsv` | dmutils/documents.py:156-160 | the extension is `.csv` |
| `Documents.IsZip` | dmutils/documents.py:163-167 | the extension is `.zip` |
| `Documents.IsImage` | dmutils/documents.py:170-174 | the extension is `.jpg`, `.jpeg` or `.png` |
| `Documents.FileTypesRelated` | dmutils/documents.py:143-174 | every PDF is an open-document-format file; the other types exclude one another |
| `Documents.ThirdCharacter` | dmutils/documents.py:143-174 | the extension lists are told apart by their third character |
| `Documents.OpenDocumentByExtension` | dmutils/documents.py:143-146 | a file is in open document format exactly when its lower-cased extension is listed |
| `Documents.FileNameSuffixesPlain` | dmutils/documents.py:181-186 | the name suffixes hold no slash or dot |
| `Documents.GenerateFileName` | dmutils/documents.py:177-196 | a name is generated exactly for the four known fields; otherwise KeyError |
| `Documents.SplitFourParts` | dmutils/documents.py:188 | four slash-free parts joined by slashes split back into them |
| `Documents.DashedNoSlash` | dmutils/documents.py:188 | the dashed last segment holds no slash |
| `Documents.StoredName` | dmutils/documents.py:188-196 | the `{}/{}/{}/{}-{}-{}{}` name; its layout is stated by `StoredNameLayout` and `StoredNameExtension` |
| `Documents.StoredNameLayout` | dmutils/documents.py:188-196 | a stored name has four path segments: framework, bucket, supplier and the dashed name |
| `Documents.GeneratedNameLayout` | dmutils/documents.py:177-196 | a generated name splits into those four segments |
| `Documents.StoredNameExtension` | dmutils/documents.py:188-196 | a stored name ends in the extension it was given |
| `Documents.GeneratedNameKeepsExtension` | dmutils/documents.py:177-196 | a generated name keeps the uploaded file's extension |
| `Documents.GetDocumentPath` | dmutils/documents.py:227-233 | the path starts with framework and category |
| `Documents.DocumentPathLayout` | dmutils/documents.py:227-233 | the path splits into framework, category, supplier and `supplier-name` |
| `Documents.GetAgreementDocumentPath` | dmutils/documents.py:219-224 | the agreement path is the document path in category `agreements` |
| `Documents.FileStorage.constructor` | dmutils/documents.py:133 | a new upload is at position 0 |
| `Documents.FileStorage.Read` | dmutils/documents.py:134 | reading returns up to n bytes from the position and advances it |
| `Documents.FileStorage.Seek` | dmutils/documents.py:135 | seeking sets the position |
| `Documents.FileStorage.IsEmpty` | dmutils/documents.py:133-136 | empty exactly when nothing was left to read; the position ends at 0 |
| `Documents.FilterEmptyFiles` | dmutils/documents.py:22-32 | kept files are unchanged entries with content; a dropped file was empty or read to its end; every position ends at 0 |
| `Documents.DocumentError` | dmutils/documents.py:49-53 | the format error, else the size error, else none; `DocumentErrorPrecedence` states each case |
| `Documents.DocumentErrorPrecedence` | dmutils/documents.py:49-53 | the format error wins over the size error; no error exactly for a valid small file |
| `Documents.ValidateDocuments` | dmutils/documents.py:35-55 | one error per failing file, with its name, and an empty result exactly when every file passes |
| `Documents.BadCharsListed` | dmutils/documents.py:12-13 | the predicate for bad characters matches the listed characters |
| `Documents.NoBadCharsLeft` | dmutils/documents.py:240-241 | after removing each listed character none is left |
| `Documents.AsciiStripped` | dmutils/documents.py:238 | the ASCII-encoded, stripped name holds only ASCII |
| `Documents.ReplaceCharStep` | dmutils/documents.py:239-241 | replacing one character proceeds character by character |
| `Documents.WithoutPrefix` | dmutils/documents.py:239-243 | a prefix of dropped characters is invisible to the letters |
| `Documents.SpacesThenAmpersands` | dmutils/documents.py:239 | replacing spaces and then ampersands keeps the letters |
| `Documents.RemoveDropped` | dmutils/documents.py:240-241 | removing a dropped character keeps the letters |
| `Documents.CollapseDropped` | dmutils/documents.py:242-243 | collapsing `__` keeps the letters |
| `Documents.WithoutAgree` | dmutils/documents.py:240-243 | filters that agree on a string's characters agree on the string |
| `Documents.SpacesReplaced` | dmutils/documents.py:239 | after the replacements no space is left |
| `Documents.RemovalStep` | dmutils/documents.py:240-241 | each removal keeps earlier removals in force |
| `Documents.CollapseStep` | dmutils/documents.py:242-243 | collapsing keeps the name clean, shortens it and keeps its letters |
| `Documents.SqueezeCollapse` | dmutils/documents.py:242-243 | one pass of `replace('__', '_')` leaves the squeezed text unchanged |
| `Documents.SqueezeNone` | dmutils/documents.py:242 | text without `__` is already squeezed, so the loop ends with the squeezed text |
| `Documents.SanitiseSupplierName` | dmutils/documents.py:236-244 | the result is exactly the ASCII-only, stripped name with spaces made `_` and `&` made `and`, the bad characters removed and each run of `_` squeezed to one; so it is ASCII with no space, bad character or `__`, and its letters are those of the sanitised input |
| `Documents.Uploader.constructor` | dmutils/documents.py:90 | a new uploader has saved nothing |
| `Documents.Uploader.Save` | dmutils/documents.py:89-92 | a save succeeds unless the store refuses the path, and only a success is logged |
| `Documents.UploadDocument` | dmutils/documents.py:58-99 | KeyError for an unknown field; otherwise the file is saved under its generated name with the chosen ACL, and the result is the joined URL, or nothing if the save failed |
| `Documents.ProcessedStays` | dmutils/documents.py:116-124 | a processed file stays processed as the loop goes on |
| `Documents.UploadField` | dmutils/documents.py:114-122 | one field is uploaded: KeyError for an unknown field; otherwise it becomes its URL or gets `file_can_be_saved`, every other entry is kept, and the log gains that field's entry exactly when the storage accepts it |
| `Documents.UploadLoopStep` | dmutils/documents.py:114-122 | handling one more field keeps the loop invariant: handled fields are uploaded or reported, the rest still pending |
| `Documents.UploadProgressStep` | dmutils/documents.py:114-122 | uploading one more field keeps the loop state: handled fields uploaded or reported, and the log is the starting log plus one entry per accepted field, in order |
| `Documents.UploadProgressDone` | dmutils/documents.py:114-126 | when the loop ends every field is handled and the log holds exactly the accepted fields' entries |
| `Documents.UploadEach` | dmutils/documents.py:114-126 | every file ends either uploaded, with its URL, or with `file_can_be_saved`; the log grows by exactly one entry for each field whose save was accepted, each field once, and by nothing else |
| `Documents.UploadCandidates` | dmutils/documents.py:104-106 | only the request's files of upload fields are taken, every one of them is rewound, a kept file has content, and a dropped one was empty or already read to its end |
| `Documents.UploadServiceDocuments` | dmutils/documents.py:101-126 | the request's files of upload fields are rewound; when a kept file fails a check, every failing kept file and no other is reported and nothing is saved; otherwise every kept file is uploaded or reported and the log grows by exactly the accepted saves |
| `Forms.MatchEmail` | dmutils/forms.py:13-15 | the scanner accepts exactly what the email pattern matches |
| `Forms.ScanDomainCorrect` | dmutils/forms.py:13 | the domain scanner accepts exactly dot-separated labels of domain characters |
| `Forms.ScanLocalCorrect` | dmutils/forms.py:13 | the address scanner accepts exactly the pattern up to the end |
| `Forms.AddressParts` | dmutils/forms.py:13 | an address is well formed exactly when its local part is and its domain is |
| `Forms.NewlineVariant` | dmutils/forms.py:13 | with a final newline the pattern is tried on the address without it |
| `Forms.RefusedByDomain` | tests/test_forms.py:94-110 | a bad domain is refused, with or without a final newline |
| `Forms.TwoLabelAddressAccepted` | tests/test_forms.py:82-91 | addresses like `good@example.com` are accepted |
| `Forms.DoubleAtRefused` | tests/test_forms.py:98 | `bad@@example.com` style addresses are refused |
| `Forms.UndottedDomainRefused` | tests/test_forms.py:102-104 | a domain without a dot is refused |
| `Forms.WhitespaceInLocalPartRefused` | tests/test_forms.py:99 | whitespace before the `@` is refused |
| `Forms.DomainOf` | dmutils/forms.py:25 | the domain holds no `@` and is the suffix that follows an `@`; without an `@` it is the whole text |
| `Forms.DomainAfterAt` | dmutils/forms.py:25 | whatever the local part holds, the domain of `local@domain` is `domain` when `domain` has no `@` |
| `Forms.IsGovernmentEmail` | dmutils/forms.py:24-26 | the domain after the last `@` is a whitelisted domain or a subdomain of one |
| `Forms.GovernmentSubdomain` | dmutils/forms.py:18-26 | every subdomain of a whitelisted domain is a government address |
| `Forms.LookalikeDomainRejected` | dmutils/forms.py:26 | a domain merely ending in the same letters is not |
| `Forms.GovernmentEmailValidator` | dmutils/forms.py:29-42 | malformed: the format message, `non_gov` off; well formed but not government: the label message, `non_gov` on; government: passes, `non_gov` off |
| `Forms.StripWhitespace` | dmutils/forms.py:52-55 | text loses surrounding whitespace and nothing else; other values pass through |
| `Forms.StripWhitespaceIdempotent` | dmutils/forms.py:52-55 | stripping twice is stripping once |
| `Forms.FakeValidateCsrfToken` | dmutils/forms.py:58-70 | only the fixed token passes; anything else is ValueError |
| `Forms.FakeCsrfRoundTrip` | dmutils/forms.py:58-70 | the generated fake token always validates, and no other does |
| `Forms.FormMeta.constructor` | dmutils/forms.py:73-77 | forms start with session CSRF on |
| `Forms.FormMeta.Configure` | dmutils/forms.py:79-95 | with CSRF on: the secret is set, then the time limit or KeyError; faked: the fake class; off: CSRF and class off; every other setting is kept, and a form never turns CSRF back on |
| `Forms.CsrfValid` | dmutils/forms.py:113-119 | no CSRF passes; fake CSRF passes exactly the fixed token; session CSRF asks the session |
| `Forms.IsCsrfTokenValid` | dmutils/forms.py:113-119 | true with the settings untouched when CSRF is neither on nor faked; false with the settings untouched without a token; otherwise the settings are configured and the answer is that of the configured form, a switched-off `Meta` passing everything; KeyError exactly when CSRF is on without a time limit |
| `Forms.CsrfMaxAge` | dmutils/forms.py:104-108 | the page lifetime is the smaller of the default cache age and the CSRF time limit |
| `Forms.RenderTemplateWithCsrf` | dmutils/forms.py:98-110 | the response is private with that max age and the status is passed through; building the default form configures the shared settings; KeyError exactly when that form is built without a time limit |
| `Users.IsActive` | dmutils/user.py:42-44 | `active and not locked`, read as a condition |
| `Users.IsAuthenticated` | dmutils/user.py:38-40 | the same as being active |
| `Users.IsAnonymous` | dmutils/user.py:50-51 | never, for a hydrated user |
| `Users.HasRole` | dmutils/user.py:53-54 | the role equals the given one |
| `Users.HasAnyRole` | dmutils/user.py:56-57 | true exactly when some given role is the user's |
| `Users.AccessFollowsFlags` | dmutils/user.py:37-57 | authenticated exactly when active and not locked; never anonymous; no roles means no match |
| `Users.UserHasRole` | dmutils/user.py:18-22 | true exactly when `users.role` exists in mappings and equals the role; missing keys and non-mappings give False |
| `Users.FromJson` | dmutils/user.py:76-92 | hydration succeeds exactly when the record holds what is read; otherwise KeyError or TypeError |
| `Users.FromJsonFields` | dmutils/user.py:76-92 | the fields come from the record, `locked` defaults to False, `active` to True, and the supplier fields are None without a supplier |
| `Users.FromJsonApiRecord` | dmutils/user.py:76-92 | hydrating a user's API record gives the user back |
| `Users.MissingFlagsMeanActive` | dmutils/user.py:88-89 | a record without the flags hydrates to an active user |
| `Users.Serialize` | dmutils/user.py:65-73 | exactly the six documented keys |
| `Users.SerializedIsNotApiRecord` | dmutils/user.py:65-92 | the serialised form lacks the role and cannot be hydrated |
| `Users.NatTextValue` | dmutils/user.py:61 | the decimal text of a number reads back as that number |
| `Users.ParseInt` | dmutils/user.py:97 | `int()` fails only with ValueError |
| `Users.ParseSigned` | dmutils/user.py:97 | `int()` of stripped text: an optional sign, optional whitespace, then a non-empty run of decimal digits; anything else is ValueError |
| `Users.SignedDigits` | dmutils/user.py:97 | after a sign, `int()` reads exactly a non-empty run of digits; anything else is ValueError |
| `Users.ParseSignedSpaced` | dmutils/user.py:97 | whitespace between the sign and the digits does not change what `int()` reads |
| `Users.ParseNegativeText` | dmutils/user.py:59-97 | the text of a negative number reads back as that number |
| `Users.ParseIntText` | dmutils/user.py:59-97 | `int(unicode(n)) == n` |
| `Users.ScalarText` | dmutils/user.py:15 | the text `format` writes for a scalar JSON value; none exactly for lists and mappings |
| `Users.GetId` | dmutils/user.py:59-63 | a numeric id becomes text that `int` reads back; a text id is itself |
| `Users.LoadUser` | dmutils/user.py:94-102 | ValueError for a non-numeric id; no user for an empty response; for any other response the hydration error, or the hydrated user exactly when active and no user otherwise |
| `Users.SessionRoundTrip` | dmutils/user.py:59-102 | a user whose id was stored in the session is loaded back exactly when the API still says they are active |
| `Users.UserLoggingString` | dmutils/user.py:12-15 | `User(anonymous)` for the anonymous user; otherwise exactly `User(id=…, role=…, hashed_email=…)` with the id, role and hash of the email text, and no line when the id or role is a list or mapping or the email is not text (AttributeError in `hash_email`, user.py:7) |
| `Users.LoggingTellsAnonymousApart` | dmutils/user.py:12-15 | no signed-in user's line equals the anonymous one |
| `Filters.SmartJoin` | dmutils/filters.py:11-18 | all but the last item comma-joined, then " and " and the last; `SmartJoinIsListPhrase` ties it to the list phrase |
| `Filters.SmartJoinIsListPhrase` | dmutils/filters.py:11-18 | `smartjoin` writes the English list phrase of its items in order |
| `Filters.SmartJoinAppend` | dmutils/filters.py:13-14 | the last item follows the final "and", the rest are comma-joined |
| `Filters.SmartJoinEnds` | dmutils/filters.py:11-18 | the phrase starts with the first item and ends with the last |
| `FlaskInit.Pluralize` | dmutils/flask_init.py:133-134 | the singular for a count of 1, the plural otherwise; `PluralizeChoice` states it |
| `FlaskInit.PluralizeChoice` | dmutils/flask_init.py:133-134 | the singular exactly for a count of one |
| `FlaskInit.RemoveTrailingSlash` | dmutils/flask_init.py:80-92 | a 301 exactly for a slash-terminated path other than the root, to the path less its slash with the query kept |
| `FlaskInit.SlashedPageRedirects` | dmutils/flask_init.py:80-92 | `page/` is sent to `page` |
| `FlaskInit.Settle` | dmutils/flask_init.py:80-92 | following redirects ends on a page that is not redirected, a prefix of the original |
| `FlaskInit.RedirectsSettle` | dmutils/flask_init.py:80-92 | the query does not change the decision; only trailing slashes are removed |
| `FlaskInit.AddHeader` | dmutils/flask_init.py:53-56 | every response gets `X-Frame-Options: DENY`, nothing else changes |
| `FlaskInit.VaryWithCookie` | dmutils/flask_init.py:99-103 | `Vary` becomes the earlier non-empty value followed by `, Cookie`, and just `Cookie` when it was absent or empty |
| `FlaskInit.AddCacheControl` | dmutils/flask_init.py:94-110 | non-GET and redirect responses untouched; otherwise varies on the cookie, private if it was or the user is signed in, and the default max age only when none was set |

## Left out

- `hash_email` and the hash in `user_logging_string`: SHA-256 is a foreign
  hash, so the hash of the email text is a parameter.
- JSON numbers are integers. A float id or supplier code, which
  `unicode()` writes and `int()` reads differently, is not modelled, so
  `Users.GetId`, `Users.LoadUser` and `Users.UserLoggingString` see only
  integer numbers.
- `json.dumps`/`json.loads` are an abstract serializer. Its laws say that
  loading a dump gives the value back, and that a dump has no raw NUL.
- Fernet's AES-CBC and HMAC are an abstract cipher with a round-trip, key
  isolation and integrity law. The random IV is folded into that cipher.
  The clock-skew check on future timestamps is not modelled.
- Base64 decoding is strict. Python's decoder also ignores stray
  characters; that leniency is not modelled.
- `datetime.strptime` of `passwordChangedAt` is replaced by an integer
  timestamp in microseconds.
- Email I/O is not modelled: the SES client call, the stderr template,
  `EmailError` and every logger call.
- The S3 side is not modelled. `uploader.save` is `Documents.Uploader.Save`
  with a set of refused paths. `urljoin` is a parameter.
  `get_file_size_up_to_maximum`/`FILE_SIZE_LIMIT` are a size limit
  compared with the file's length.
- `Documents.UploadServiceDocuments` and `Documents.UploadEach`:
  `Uploader.Save` does not read the file, so the model leaves every
  request file at position 0 after the uploads. The real `uploader.save`
  streams the file to S3 and leaves the position where the read ended.
- `get_signed_url`: URL parsing and rebuilding are not modelled.
- `default_file_suffix` reads the clock, so the suffix is a parameter.
- `parse_money`'s `Decimal` conversion is a parameter. Only the text
  handed to it is modelled.
- `markdown_filter` and `format_links` are not modelled. They depend on a
  foreign Markdown library, and on regex `findall`/`split` with `Markup`
  escaping.
- WTForms plumbing is not modelled: session CSRF token generation, the
  `Form` machinery and `render_template` itself. The session check is a
  parameter.
- Flask plumbing is not modelled: app and extension registration,
  `init_manager`, `set_scheme`, `refresh_session`, the request log handler
  and `get_extra_files` (a filesystem walk).
- `Forms.MatchesEmailRegex`: `\d` and `\w` under `re.UNICODE` also match
  non-ASCII digits and letters; the model accepts only ASCII in the domain.
- `Documents.GetExtension`: `lower()` of non-ASCII letters is not modelled.
  The same holds for `Lower` everywhere.
- `Users.ParseInt`: `int()` also accepts non-ASCII decimal digits, which
  the model refuses. A value too large for a machine integer is read by
  Python 2's separate `long` parser; the model reads it like any other.
- `DataTools.NormaliseAcn` and `DataTools.NormaliseAbn`: on a unicode
  input, `map(int, ...)` also converts non-ASCII decimal digits after the
  nine (eleven) matched ASCII ones; the model gives `NotAnInteger`, the
  ValueError of `int`, there.
- `DataTools.NormaliseAcn`, `DataTools.NormaliseAbn` and
  `DataTools.ParseMoney`: the error messages are built with byte-string
  `format`, which raises UnicodeEncodeError for a unicode input holding a
  non-ASCII character; the model always gives the ValidationError.
- `FlaskInit.RemoveTrailingSlash`: the byte-string `format` of the
  redirect target and `query_string.decode('utf-8')` can raise
  UnicodeEncodeError or UnicodeDecodeError on non-ASCII paths or query
  strings; text here is a sequence of characters, so neither is modelled.
- `Email.DecodePasswordResetToken`: a failure of the user lookup or of
  parsing `passwordChangedAt` is merged into the `LookupFailed` answer;
  the exception's kind and message are not kept.
- `Users.ScalarText`: the text of list and mapping values is not modelled.
  So `GetId` and `UserLoggingString` give no result for such ids or roles.
  A non-ASCII id or role in the log line, which Python 2's `str.format`
  would reject, is not modelled either.
- Dictionary iteration order is not modelled. Maps are unordered here, and
  the loops over files visit them in an order the model does not fix.
- `Forms.GovernmentEmailValidator`: the label is taken with its markup
  already stripped; `do_striptags` is not modelled.
- `Http.Response`: headers are single-valued, and a response body is not
  modelled.
- `Filters.SmartJoin`: the items are text. `'{}'.format` of other values
  is not modelled.
