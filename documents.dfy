/** dmutils/documents.py: extensions and file-type checks of uploaded files,
    the per-field validation and emptiness filters, the deterministic names
    and paths documents are stored under, supplier-name sanitising, and the
    control flow of `upload_service_documents`. */
module Documents {
  import opened Common

  // ---------------------------------------------------------------- extensions

  /** Index of the last `c` in `s`, or -1 when there is none (Python's `s.rfind(c)`). */
  function RFind(s: string, c: char): (i: int)
    ensures -1 <= i < |s|
    ensures i == -1 <==> c !in s
    ensures i >= 0 ==> s[i] == c && c !in s[i + 1..]
  {
    if c in s then LastIndexOf(s, c) else -1
  }

  /** Some character of `s[lo..hi]` is not a dot. */
  predicate HasNonDot(s: string, lo: int, hi: int)
    requires 0 <= lo && hi <= |s|
  {
    exists k :: lo <= k < hi && s[k] != '.'
  }

  /** `os.path.splitext` of a POSIX path: the extension runs from the last
      dot of the final path component, unless everything before that dot in
      the component is dots (a hidden file such as `.profile`). */
  function SplitExt(p: string): (r: (string, string))
    ensures r.0 + r.1 == p
    ensures r.1 == [] || (r.1[0] == '.' && '.' !in r.1[1..] && '/' !in r.1)
  {
    var sepIndex := RFind(p, '/');
    var dotIndex := RFind(p, '.');
    if dotIndex > sepIndex && HasNonDot(p, sepIndex + 1, dotIndex) then
      assert '/' !in p[dotIndex..] by {
        if sepIndex >= 0 {
          assert p[dotIndex..] == p[sepIndex + 1..][dotIndex - sepIndex - 1..];
        }
      }
      (p[..dotIndex], p[dotIndex..])
    else
      (p, [])
  }

  /** `get_extension(filename)`: the lower-cased extension, `""` when there is none. */
  function GetExtension(filename: string): string
  {
    Lower(SplitExt(filename).1)
  }

  /** The extension is a lower-case suffix of the lower-cased name: empty, or
      a dot followed by neither dots nor slashes. */
  lemma ExtensionShape(filename: string)
    ensures var r := GetExtension(filename);
            && EndsWith(Lower(filename), r)
            && Lower(r) == r
            && (r == [] || (r[0] == '.' && '.' !in r[1..] && '/' !in r))
  {
    var ext := SplitExt(filename).1;
    LowerSuffix(filename, |filename| - |ext|);
    LowerIdempotent(ext);
    if ext != [] {
      LowerKeeps(ext, '/');
      LowerKeeps(ext[1..], '.');
    }
  }

  /** Lower-casing commutes with taking a suffix. */
  lemma LowerSuffix(s: string, i: nat)
    requires i <= |s|
    ensures Lower(s)[i..] == Lower(s[i..])
  {
  }

  /** Lower-casing neither adds nor removes a character that is not a letter. */
  lemma LowerKeeps(s: string, c: char)
    requires !IsAsciiLetter(c)
    ensures c in Lower(s) <==> c in s
    ensures s != [] ==> Lower(s)[1..] == Lower(s[1..])
  {
    if c in Lower(s) {
      var i :| 0 <= i < |s| && Lower(s)[i] == c;
      assert s[i] == c;
    }
    if c in s {
      var i :| 0 <= i < |s| && s[i] == c;
      assert Lower(s)[i] == c;
    }
  }

  lemma LowerIdempotent(s: string)
    ensures Lower(Lower(s)) == Lower(s)
  {
  }

  /** A name with a stem that does not end in a dot or a slash and an
      extension without dots or slashes splits at the extension's dot. */
  lemma SplitExtOfName(stem: string, ext: string)
    requires stem != [] && stem[|stem| - 1] != '.' && stem[|stem| - 1] != '/'
    requires '.' !in ext && '/' !in ext
    ensures SplitExt(stem + "." + ext) == (stem, "." + ext)
  {
    var p := stem + "." + ext;
    assert p[..|stem|] == stem && p[|stem|..] == "." + ext;
    assert p[|stem| + 1..] == ext;
    assert p[|stem| - 1] == stem[|stem| - 1];
    SplitExtAt(p, |stem|);
  }

  /** The split falls at a dot with neither dots nor slashes after it, when
      the character before it is neither a dot nor a slash. */
  lemma SplitExtAt(p: string, i: nat)
    requires 0 < i < |p| && p[i] == '.' && '.' !in p[i + 1..] && '/' !in p[i + 1..]
    requires p[i - 1] != '.' && p[i - 1] != '/'
    ensures SplitExt(p) == (p[..i], p[i..])
  {
    LastIndexUnique(p, '.', i);
    var sepIndex := RFind(p, '/');
    assert sepIndex < i - 1 by {
      assert forall k | i + 1 <= k < |p| :: p[k] == p[i + 1..][k - i - 1];
    }
    assert HasNonDot(p, sepIndex + 1, i) by {
      assert p[i - 1] != '.';
    }
  }

  /** A name with no dot after its last slash has no extension. */
  lemma NoExtensionAfterLastSlash(dir: string, name: string)
    requires '.' !in name
    ensures SplitExt(dir + "/" + name).1 == []
  {
    var p := dir + "/" + name;
    assert p[|dir|] == '/';
    assert p[|dir| + 1..] == name;
    var sepIndex := RFind(p, '/');
    assert sepIndex >= |dir|;
    var dotIndex := RFind(p, '.');
    assert dotIndex <= sepIndex;
  }

  /** A hidden file whose only dot is the leading one has no extension. */
  lemma HiddenFileHasNoExtension(dir: string, name: string)
    requires '.' !in name && '/' !in name
    ensures SplitExt(dir + "/." + name).1 == []
  {
    var p := dir + "/." + name;
    assert p[|dir|] == '/' && p[|dir| + 1] == '.';
    assert p[|dir| + 2..] == name;
    var sepIndex := RFind(p, '/');
    assert sepIndex == |dir|;
    var dotIndex := RFind(p, '.');
    assert dotIndex == |dir| + 1;
    assert !HasNonDot(p, sepIndex + 1, dotIndex);
  }

  // ---------------------------------------------------------------- file types

  const OpenDocumentExtensions: seq<string> := [".pdf", ".pda", ".odt", ".ods", ".odp"]
  const PdfExtensions: seq<string> := [".pdf", ".pda"]
  const CsvExtensions: seq<string> := [".csv"]
  const ZipExtensions: seq<string> := [".zip"]
  const ImageExtensions: seq<string> := [".jpg", ".jpeg", ".png"]

  predicate IsOpenDocumentFormat(filename: string) { GetExtension(filename) in OpenDocumentExtensions }
  predicate IsPdf(filename: string) { GetExtension(filename) in PdfExtensions }
  predicate IsCsv(filename: string) { GetExtension(filename) in CsvExtensions }
  predicate IsZip(filename: string) { GetExtension(filename) in ZipExtensions }
  predicate IsImage(filename: string) { GetExtension(filename) in ImageExtensions }

  /** Every PDF counts as an open document format; CSV, ZIP and images do not,
      and the CSV, ZIP and image checks exclude one another. */
  lemma FileTypesRelated(filename: string)
    ensures IsPdf(filename) ==> IsOpenDocumentFormat(filename)
    ensures IsOpenDocumentFormat(filename) ==> !IsCsv(filename) && !IsZip(filename) && !IsImage(filename)
    ensures !(IsCsv(filename) && IsZip(filename))
    ensures !(IsCsv(filename) && IsImage(filename)) && !(IsZip(filename) && IsImage(filename))
  {
    ThirdCharacter(GetExtension(filename));
  }

  /** The lists are told apart by the character after the dot's successor. */
  lemma ThirdCharacter(x: string)
    ensures x in OpenDocumentExtensions ==> |x| >= 3 && x[2] == 'd'
    ensures x in PdfExtensions ==> x in OpenDocumentExtensions
    ensures x in CsvExtensions ==> |x| >= 3 && x[2] == 's'
    ensures x in ZipExtensions ==> |x| >= 3 && x[2] == 'i'
    ensures x in ImageExtensions ==> |x| >= 3 && (x[2] == 'p' || x[2] == 'n')
  {
  }

  /** The type checks ignore the case of the extension and look only at the
      text after the last dot. */
  lemma OpenDocumentByExtension(stem: string, ext: string)
    requires stem != [] && stem[|stem| - 1] != '.' && stem[|stem| - 1] != '/'
    requires '.' !in ext && '/' !in ext
    ensures GetExtension(stem + "." + ext) == Lower("." + ext)
    ensures IsOpenDocumentFormat(stem + "." + ext) <==> Lower("." + ext) in OpenDocumentExtensions
  {
    SplitExtOfName(stem, ext);
  }

  // ---------------------------------------------------------------- names and paths

  /** The file-name stem each upload field is stored under (`ID_TO_FILE_NAME_SUFFIX`). */
  const FileNameSuffixes: map<string, string> := map[
    "serviceDefinitionDocumentURL" := "service-definition-document",
    "termsAndConditionsDocumentURL" := "terms-and-conditions",
    "sfiaRateDocumentURL" := "sfia-rate-card",
    "pricingDocumentURL" := "pricing-document"
  ]

  /** No stem contains a slash or a dot. */
  lemma FileNameSuffixesPlain(field: string)
    requires field in FileNameSuffixes
    ensures '/' !in FileNameSuffixes[field] && '.' !in FileNameSuffixes[field]
  {
    var stem := FileNameSuffixes[field];
    assert stem in ["service-definition-document", "terms-and-conditions", "sfia-rate-card", "pricing-document"];
    forall i | 0 <= i < |stem|
      ensures stem[i] == '-' || 'a' <= stem[i] <= 'z'
    {
    }
  }

  /** The layout `generate_file_name` formats: three directories, then the
      service id, the field's stem and the suffix joined by dashes, then the
      extension. */
  function StoredName(frameworkSlug: string, bucketShortName: string, supplierCode: string,
                      serviceId: string, stem: string, suffix: string, ext: string): string
  {
    frameworkSlug + "/" + bucketShortName + "/" + supplierCode + "/"
      + (serviceId + "-" + stem + "-" + suffix + ext)
  }

  /** `generate_file_name(...)` with the time-stamp suffix passed in; the
      supplier code and service id are given as the text `format` renders.
      A field outside the four known upload fields raises KeyError. */
  function GenerateFileName(frameworkSlug: string, bucketShortName: string, supplierCode: string,
                            serviceId: string, field: string, filename: string, suffix: string)
    : (r: Result<string, Exception>)
    ensures r.Success? <==> field in FileNameSuffixes
    ensures r.Failure? ==> r.error == KeyError
  {
    if field !in FileNameSuffixes then Failure(KeyError)
    else Success(StoredName(frameworkSlug, bucketShortName, supplierCode, serviceId, FileNameSuffixes[field],
                            suffix, GetExtension(filename)))
  }

  /** Four slash-free parts joined by slashes split back into those parts. */
  lemma SplitFourParts(a: string, b: string, c: string, d: string)
    requires '/' !in a && '/' !in b && '/' !in c && '/' !in d
    ensures Split(a + "/" + b + "/" + c + "/" + d, '/') == [a, b, c, d]
  {
    var parts := [a, b, c, d];
    assert Join(parts[3..], "/") == d;
    assert Join(parts[2..], "/") == c + "/" + d;
    assert Join(parts[1..], "/") == b + "/" + (c + "/" + d);
    assert Join(parts, "/") == a + "/" + (b + "/" + (c + "/" + d));
    assert a + "/" + b + "/" + c + "/" + d == a + "/" + (b + "/" + (c + "/" + d));
    SplitJoin(parts, '/');
  }

  lemma DashedNoSlash(a: string, b: string, c: string, d: string)
    requires '/' !in a && '/' !in b && '/' !in c && '/' !in d
    ensures '/' !in a + "-" + b + "-" + c + d
  {
  }

  lemma StoredNameLayout(frameworkSlug: string, bucketShortName: string, supplierCode: string,
                         serviceId: string, stem: string, suffix: string, ext: string)
    requires '/' !in frameworkSlug && '/' !in bucketShortName && '/' !in supplierCode
    requires '/' !in serviceId && '/' !in stem && '/' !in suffix && '/' !in ext
    ensures Split(StoredName(frameworkSlug, bucketShortName, supplierCode, serviceId, stem, suffix, ext), '/')
            == [frameworkSlug, bucketShortName, supplierCode, serviceId + "-" + stem + "-" + suffix + ext]
  {
    var name := serviceId + "-" + stem + "-" + suffix + ext;
    DashedNoSlash(serviceId, stem, suffix, ext);
    SplitFourParts(frameworkSlug, bucketShortName, supplierCode, name);
  }

  /** A generated name is the framework, the bucket and the supplier as
      directories, then a file named after the service, the field and the
      suffix, ending in the upload's own extension. */
  lemma GeneratedNameLayout(frameworkSlug: string, bucketShortName: string, supplierCode: string,
                            serviceId: string, field: string, filename: string, suffix: string)
    requires field in FileNameSuffixes
    requires '/' !in frameworkSlug && '/' !in bucketShortName && '/' !in supplierCode
    requires '/' !in serviceId && '/' !in suffix
    ensures var r := GenerateFileName(frameworkSlug, bucketShortName, supplierCode, serviceId, field, filename, suffix);
            Split(r.value, '/') == [frameworkSlug, bucketShortName, supplierCode,
                                    serviceId + "-" + FileNameSuffixes[field] + "-" + suffix + GetExtension(filename)]
  {
    FileNameSuffixesPlain(field);
    StoredNameLayout(frameworkSlug, bucketShortName, supplierCode, serviceId, FileNameSuffixes[field], suffix,
                     GetExtension(filename));
  }

  lemma StoredNameExtension(frameworkSlug: string, bucketShortName: string, supplierCode: string,
                            serviceId: string, stem: string, suffix: string, ext: string)
    requires '/' !in serviceId && '/' !in stem && '/' !in suffix
    requires '.' !in serviceId && '.' !in stem && '.' !in suffix
    requires ext == [] || (ext[0] == '.' && '.' !in ext[1..] && '/' !in ext)
    ensures SplitExt(StoredName(frameworkSlug, bucketShortName, supplierCode, serviceId, stem, suffix, ext)).1 == ext
  {
    var dir := frameworkSlug + "/" + bucketShortName + "/" + supplierCode;
    var name := serviceId + "-" + stem + "-" + suffix;
    assert '.' !in name && '/' !in name;
    var path := StoredName(frameworkSlug, bucketShortName, supplierCode, serviceId, stem, suffix, ext);
    assert path == dir + "/" + name + ext;
    if ext == [] {
      assert path == dir + "/" + name;
      NoExtensionAfterLastSlash(dir, name);
    } else {
      var e := ext[1..];
      assert ext == "." + e;
      var full := dir + "/" + name;
      assert full[|full| - 1] == name[|name| - 1];
      assert path == full + "." + e;
      SplitExtOfName(full, e);
    }
  }

  /** The stored name keeps the extension of the uploaded file, so the type
      checks give the same answer for both. */
  lemma GeneratedNameKeepsExtension(frameworkSlug: string, bucketShortName: string, supplierCode: string,
                                    serviceId: string, field: string, filename: string, suffix: string)
    requires field in FileNameSuffixes
    requires '/' !in serviceId && '/' !in suffix && '.' !in serviceId && '.' !in suffix
    ensures var r := GenerateFileName(frameworkSlug, bucketShortName, supplierCode, serviceId, field, filename, suffix);
            EndsWith(r.value, GetExtension(filename)) && GetExtension(r.value) == GetExtension(filename)
  {
    var ext := GetExtension(filename);
    ExtensionShape(filename);
    FileNameSuffixesPlain(field);
    var path := StoredName(frameworkSlug, bucketShortName, supplierCode, serviceId, FileNameSuffixes[field], suffix, ext);
    assert GenerateFileName(frameworkSlug, bucketShortName, supplierCode, serviceId, field, filename, suffix).value == path;
    assert path[|path| - |ext|..] == ext;
    StoredNameExtension(frameworkSlug, bucketShortName, supplierCode, serviceId, FileNameSuffixes[field], suffix, ext);
    assert SplitExt(path).1 == ext;
    assert GetExtension(path) == Lower(ext);
  }

  /** `get_document_path(framework_slug, supplier_code, bucket_category, document_name)`. */
  function GetDocumentPath(frameworkSlug: string, supplierCode: string, bucketCategory: string,
                           documentName: string): (r: string)
    ensures StartsWith(r, frameworkSlug + "/" + bucketCategory + "/")
  {
    frameworkSlug + "/" + bucketCategory + "/" + supplierCode + "/" + supplierCode + "-" + documentName
  }

  /** The supplier code appears both as the directory and as the prefix of the file name. */
  lemma DocumentPathLayout(frameworkSlug: string, supplierCode: string, bucketCategory: string,
                           documentName: string)
    requires '/' !in frameworkSlug && '/' !in supplierCode && '/' !in bucketCategory && '/' !in documentName
    ensures Split(GetDocumentPath(frameworkSlug, supplierCode, bucketCategory, documentName), '/')
            == [frameworkSlug, bucketCategory, supplierCode, supplierCode + "-" + documentName]
  {
    var name := supplierCode + "-" + documentName;
    assert '/' !in name;
    SplitFourParts(frameworkSlug, bucketCategory, supplierCode, name);
    assert frameworkSlug + "/" + bucketCategory + "/" + supplierCode + "/" + name
        == GetDocumentPath(frameworkSlug, supplierCode, bucketCategory, documentName);
  }

  /** `get_agreement_document_path(framework_slug, supplier_code, document_name)`,
      the deprecated form of the document path in the `agreements` category. */
  function GetAgreementDocumentPath(frameworkSlug: string, supplierCode: string, documentName: string): (r: string)
    ensures r == GetDocumentPath(frameworkSlug, supplierCode, "agreements", documentName)
  {
    frameworkSlug + "/agreements/" + supplierCode + "/" + supplierCode + "-" + documentName
  }

  // ---------------------------------------------------------------- uploaded files

  /** An uploaded file: its client-side name, its bytes and the read position
      of the stream. */
  class FileStorage {
    const filename: string
    const data: seq<byte>
    var pos: nat

    constructor (filename: string, data: seq<byte>)
      ensures this.filename == filename && this.data == data && pos == 0
    {
      this.filename := filename;
      this.data := data;
      pos := 0;
    }

    /** `read(n)`: up to `n` bytes from the current position, which advances past them. */
    method Read(n: nat) returns (chunk: seq<byte>)
      modifies this
      ensures old(pos) < |data| ==> chunk == data[old(pos)..if old(pos) + n <= |data| then old(pos) + n else |data|]
      ensures old(pos) >= |data| ==> chunk == []
      ensures pos == old(pos) + |chunk|
    {
      if pos >= |data| {
        chunk := [];
      } else {
        var end := if pos + n <= |data| then pos + n else |data|;
        chunk := data[pos..end];
        pos := end;
      }
    }

    method Seek(offset: nat)
      modifies this
      ensures pos == offset
    {
      pos := offset;
    }

    /** `file_is_empty(file_contents)`: nothing can be read from the current
      position; the stream is rewound to the start afterwards. */
    method IsEmpty() returns (empty: bool)
      modifies this
      ensures empty <==> old(pos) >= |data|
      ensures pos == 0
    {
      var chunk := Read(1);
      empty := |chunk| == 0;
      Seek(0);
    }
  }

  /** `filter_empty_files(files)`: the entries whose file yields a byte when
      read. Every file is rewound. A file is checked from wherever its stream
      stands, so a dropped file is empty or was already read to its end. */
  method FilterEmptyFiles(files: map<string, FileStorage>) returns (kept: map<string, FileStorage>)
    modifies files.Values
    ensures kept.Keys <= files.Keys
    ensures forall k :: k in kept ==> kept[k] == files[k] && |files[k].data| > 0
    ensures forall k :: k in files && k !in kept ==> |files[k].data| == 0 || old(files[k].pos) >= |files[k].data|
    ensures forall k :: k in files ==> files[k].pos == 0
    ensures (forall k :: k in files ==> old(files[k].pos) == 0) ==>
              forall k :: k in files ==> (k in kept <==> |files[k].data| > 0)
  {
    kept := map[];
    var todo := files.Keys;
    while todo != {}
      invariant todo <= files.Keys
      invariant kept.Keys <= files.Keys - todo
      invariant forall k :: k in kept ==> kept[k] == files[k] && |files[k].data| > 0
      invariant forall k :: k in files.Keys - todo && k !in kept ==>
                  |files[k].data| == 0 || old(files[k].pos) >= |files[k].data|
      invariant forall k :: k in files.Keys - todo ==> files[k].pos == 0
      invariant forall k :: k in files ==> files[k].pos == 0 || files[k].pos == old(files[k].pos)
      decreases todo
    {
      var k :| k in todo;
      var empty := files[k].IsEmpty();
      if !empty {
        kept := kept[k := files[k]];
      }
      todo := todo - {k};
    }
  }

  const FormatError := "file_is_open_document_format"
  const SizeError := "file_is_less_than_5mb"
  const SaveError := "file_can_be_saved"

  /** The validator name reported for one file, the format check first. The
      size limit (FILE_SIZE_LIMIT of the storage module) is a parameter. */
  function DocumentError(f: FileStorage, sizeLimit: int): Option<string>
  {
    if !IsOpenDocumentFormat(f.filename) then Some(FormatError)
    else if !(|f.data| < sizeLimit) then Some(SizeError)
    else None
  }

  /** A file in the wrong format is reported as such whatever its size; the
      size is reported only for a file in an accepted format. */
  lemma DocumentErrorPrecedence(f: FileStorage, sizeLimit: int)
    ensures DocumentError(f, sizeLimit) == Some(FormatError) <==> !IsOpenDocumentFormat(f.filename)
    ensures DocumentError(f, sizeLimit) == Some(SizeError) <==> IsOpenDocumentFormat(f.filename) && |f.data| >= sizeLimit
    ensures DocumentError(f, sizeLimit) == None <==> IsOpenDocumentFormat(f.filename) && |f.data| < sizeLimit
  {
  }

  /** `validate_documents(files)`: one entry per failing file, naming the
      first check it fails; empty exactly when every file passes. */
  method ValidateDocuments(files: map<string, FileStorage>, sizeLimit: int) returns (errors: map<string, string>)
    ensures errors.Keys <= files.Keys
    ensures forall k :: k in files ==> (k in errors <==> DocumentError(files[k], sizeLimit).Some?)
    ensures forall k :: k in errors ==> errors[k] == DocumentError(files[k], sizeLimit).value
    ensures errors == map[] <==> forall k :: k in files ==> DocumentError(files[k], sizeLimit) == None
  {
    errors := map[];
    var todo := files.Keys;
    while todo != {}
      invariant todo <= files.Keys
      invariant errors.Keys <= files.Keys - todo
      invariant forall k :: k in files.Keys - todo ==> (k in errors <==> DocumentError(files[k], sizeLimit).Some?)
      invariant forall k :: k in errors ==> errors[k] == DocumentError(files[k], sizeLimit).value
      decreases todo
    {
      var k :| k in todo;
      var f := files[k];
      if !IsOpenDocumentFormat(f.filename) {
        errors := errors[k := FormatError];
      } else if !(|f.data| < sizeLimit) {
        errors := errors[k := SizeError];
      }
      todo := todo - {k};
    }
    if errors == map[] {
      forall k | k in files ensures DocumentError(files[k], sizeLimit) == None {
        assert k !in errors;
      }
    }
  }

  // ---------------------------------------------------------------- supplier names

  const BadSupplierNameCharacters: seq<char> :=
    ['#', '%', '&', '{', '}', '\\', '<', '>', '*', '?', '/', '$',
     '!', '\'', '"', ':', '@', '+', '`', '|', '=', ',', '.']

  /** Membership in `BadSupplierNameCharacters`, spelt out. */
  predicate IsBadChar(c: char)
  {
    || c == '#' || c == '%' || c == '&' || c == '{' || c == '}' || c == '\\' || c == '<' || c == '>'
    || c == '*' || c == '?' || c == '/' || c == '$' || c == '!' || c == '\'' || c == '"' || c == ':'
    || c == '@' || c == '+' || c == '`' || c == '|' || c == '=' || c == ',' || c == '.'
  }

  lemma BadCharsListed(c: char)
    ensures c in BadSupplierNameCharacters <==> IsBadChar(c)
  {
  }

  /** A string that holds none of the listed characters holds no bad character. */
  lemma NoBadCharsLeft(s: string)
    requires forall k :: 0 <= k < |BadSupplierNameCharacters| ==> BadSupplierNameCharacters[k] !in s
    ensures forall c :: c in s ==> !IsBadChar(c)
  {
    forall c | c in s ensures !IsBadChar(c) {
      BadCharsListed(c);
    }
  }

  predicate NotAscii(c: char) { !IsAscii(c) }

  predicate IsUnderscore(c: char) { c == '_' }

  /** What the sanitiser removes or turns into underscores, underscores included. */
  predicate IsDropped(c: char) { c == ' ' || c == '_' || IsBadChar(c) }

  /** The name with non-ASCII characters dropped (`encode('ascii', errors='ignore')`)
      and the surrounding whitespace stripped. */
  function AsciiStripped(name: string): (r: string)
    ensures forall c :: c in r ==> IsAscii(c)
  {
    var ascii := Without(name, NotAscii);
    WithoutExcludes(name, NotAscii);
    var r := Strip(ascii, IsUnicodeWhitespace);
    var i :| StrippedAt(ascii, IsUnicodeWhitespace, i, r);
    assert forall c :: c in r ==> c in ascii by {
      forall c | c in r ensures c in ascii {
        var k :| 0 <= k < |r| && r[k] == c;
        assert ascii[i + k] == c;
      }
    }
    r
  }

  /** The text the sanitised name spells once its underscores are ignored:
      the ASCII, stripped name with `&` written `and` and every space,
      underscore and bad character gone. */
  function SanitisedLetters(name: string): string
  {
    Without(Replace(AsciiStripped(name), "&", "and"), IsDropped)
  }

  /** Replacing a single character: the first character is handled, then the rest. */
  lemma ReplaceCharStep(s: string, c: char, rep: string)
    requires s != []
    ensures Replace(s, [c], rep) == (if s[0] == c then rep else [s[0]]) + Replace(s[1..], [c], rep)
  {
    assert s[..1] == [s[0]];
  }

  lemma {:induction false} WithoutPrefix(a: string, b: string, bad: char -> bool)
    requires forall c :: c in a ==> bad(c)
    ensures Without(a + b, bad) == Without(b, bad)
    decreases |a|
  {
    if a != [] {
      assert (a + b)[1..] == a[1..] + b;
      assert a[0] in a;
      assert (a + b)[0] == a[0] && bad(a[0]);
      assert Without(a + b, bad) == Without((a + b)[1..], bad);
      WithoutPrefix(a[1..], b, bad);
    } else {
      assert a + b == b;
    }
  }

  /** Turning spaces into underscores first makes no difference once spaces
      and underscores are ignored. */
  lemma {:induction false} SpacesThenAmpersands(t: string)
    ensures Without(Replace(Replace(t, " ", "_"), "&", "and"), IsDropped)
         == Without(Replace(t, "&", "and"), IsDropped)
    decreases |t|
  {
    if t != [] {
      var u := Replace(t, " ", "_");
      ReplaceCharStep(t, ' ', "_");
      ReplaceCharStep(t, '&', "and");
      var head := if t[0] == ' ' then "_" else [t[0]];
      assert u == head + Replace(t[1..], " ", "_");
      assert u != [] && u[0] == head[0] && u[1..] == Replace(t[1..], " ", "_");
      ReplaceCharStep(u, '&', "and");
      var head' := if t[0] == '&' then "and" else [t[0]];
      var rest := Replace(Replace(t[1..], " ", "_"), "&", "and");
      var rest' := Replace(t[1..], "&", "and");
      SpacesThenAmpersands(t[1..]);
      if t[0] == ' ' {
        assert Replace(u, "&", "and") == "_" + rest;
        WithoutPrefix("_", rest, IsDropped);
        WithoutPrefix(" ", rest', IsDropped);
      } else {
        assert Replace(u, "&", "and") == head' + rest;
        WithoutConcat(head', rest, IsDropped);
        WithoutConcat(head', rest', IsDropped);
      }
    }
  }

  /** Removing a character that a filter drops anyway changes nothing the
      filter keeps. */
  lemma {:induction false} RemoveDropped(s: string, b: char, dropped: char -> bool)
    requires dropped(b)
    ensures Without(Replace(s, [b], ""), dropped) == Without(s, dropped)
    decreases |s|
  {
    if s != [] {
      ReplaceCharStep(s, b, "");
      RemoveDropped(s[1..], b, dropped);
      if s[0] == b {
        assert Replace(s, [b], "") == Replace(s[1..], [b], "");
      } else {
        WithoutConcat([s[0]], Replace(s[1..], [b], ""), dropped);
        WithoutConcat([s[0]], s[1..], dropped);
        assert [s[0]] + s[1..] == s;
      }
    }
  }

  /** Collapsing a pair of underscores leaves the view alone. */
  lemma {:induction false} CollapseDropped(s: string)
    ensures Without(Replace(s, "__", "_"), IsDropped) == Without(s, IsDropped)
    decreases |s|
  {
    if |s| >= 2 {
      if s[..2] == "__" {
        CollapseDropped(s[2..]);
        assert s == "__" + s[2..];
        WithoutPrefix("_", Replace(s[2..], "__", "_"), IsDropped);
        WithoutPrefix("__", s[2..], IsDropped);
      } else {
        CollapseDropped(s[1..]);
        WithoutConcat([s[0]], Replace(s[1..], "__", "_"), IsDropped);
        WithoutConcat([s[0]], s[1..], IsDropped);
        assert [s[0]] + s[1..] == s;
      }
    }
  }

  /** `s` with every run of underscores written as one underscore, in a
      single left-to-right pass. */
  function Squeeze(s: string): string
    decreases |s|
  {
    if |s| < 2 then s
    else if s[0] == '_' && s[1] == '_' then Squeeze(s[1..])
    else [s[0]] + Squeeze(s[1..])
  }

  /** Squeezing a string that begins with `c`. */
  lemma SqueezeCons(c: char, t: string)
    ensures Squeeze([c] + t) == if c == '_' && t != [] && t[0] == '_' then Squeeze(t) else [c] + Squeeze(t)
  {
    assert ([c] + t)[1..] == t;
  }

  /** Squeezing and collapsing keep the first character. */
  lemma {:induction false} SqueezeHead(t: string)
    ensures t == [] <==> Squeeze(t) == []
    ensures t != [] ==> Squeeze(t)[0] == t[0]
    ensures t == [] <==> Replace(t, "__", "_") == []
    ensures t != [] ==> Replace(t, "__", "_")[0] == t[0]
    decreases |t|
  {
    if |t| >= 2 && t[0] == '_' && t[1] == '_' {
      SqueezeHead(t[1..]);
      assert t[..2] == "__";
    }
  }

  /** One `replace('__', '_')` does not change what squeezing gives. */
  lemma {:induction false} SqueezeCollapse(s: string)
    ensures Squeeze(Replace(s, "__", "_")) == Squeeze(s)
    decreases |s|
  {
    if |s| >= 2 {
      if s[..2] == "__" {
        assert s[0] == '_' && s[1] == '_' by { assert s[..2][0] == s[0] && s[..2][1] == s[1]; }
        var t := s[2..];
        var u := Replace(t, "__", "_");
        assert Replace(s, "__", "_") == "_" + u;
        assert s[1..] == "_" + t;
        SqueezeCollapse(t);
        SqueezeHead(t);
        SqueezeCons('_', u);
        SqueezeCons('_', t);
      } else {
        var u := Replace(s[1..], "__", "_");
        assert Replace(s, "__", "_") == [s[0]] + u;
        SqueezeCollapse(s[1..]);
        SqueezeHead(s[1..]);
        SqueezeCons(s[0], u);
      }
    }
  }

  /** A string with no pair of underscores is already squeezed. */
  lemma {:induction false} SqueezeNone(s: string)
    requires !IsSubstring("__", s)
    ensures Squeeze(s) == s
    decreases |s|
  {
    if |s| >= 2 {
      assert !OccursAt("__", s, 0);
      assert s[0..2] == [s[0], s[1]];
      forall i | 0 <= i <= |s[1..]| - 2
        ensures !OccursAt("__", s[1..], i)
      {
        assert !OccursAt("__", s, i + 1);
        assert s[1..][i..i + 2] == s[i + 1..i + 3];
      }
      SqueezeNone(s[1..]);
      assert s == [s[0]] + s[1..];
    }
  }

  /** Two predicates that agree on every character of `s` filter it alike. */
  lemma {:induction false} WithoutAgree(s: string, p: char -> bool, q: char -> bool)
    requires forall c :: c in s ==> p(c) == q(c)
    ensures Without(s, p) == Without(s, q)
    decreases |s|
  {
    if s != [] {
      assert s[0] in s;
      WithoutAgree(s[1..], p, q);
    }
  }

  /** After the two replacements the name is ASCII without spaces, and its
      view is that of the name with only `&` replaced. */
  lemma SpacesReplaced(t: string)
    requires forall c :: c in t ==> IsAscii(c)
    ensures forall c :: c in Replace(Replace(t, " ", "_"), "&", "and") ==> IsAscii(c) && c != ' '
    ensures Without(Replace(Replace(t, " ", "_"), "&", "and"), IsDropped) == Without(Replace(t, "&", "and"), IsDropped)
  {
    ReplaceCharRemoves(t, ' ', "_");
    ReplaceKeepsOut(Replace(t, " ", "_"), "&", "and", ' ');
    ReplaceChars(Replace(t, " ", "_"), "&", "and");
    SpacesThenAmpersands(t);
  }

  /** One pass of the removal loop: removing `chars[j]` keeps out the
      characters removed before it and adds nothing outside `s`. */
  lemma RemovalStep(s: string, chars: seq<char>, j: nat)
    requires j < |chars|
    requires forall k :: 0 <= k < j ==> chars[k] !in s
    ensures forall k :: 0 <= k <= j ==> chars[k] !in Replace(s, [chars[j]], "")
    ensures forall c :: c in Replace(s, [chars[j]], "") ==> c in s
  {
    ReplaceCharRemoves(s, chars[j], "");
    forall k | 0 <= k < j ensures chars[k] !in Replace(s, [chars[j]], "") {
      ReplaceKeepsOut(s, [chars[j]], "", chars[k]);
    }
  }

  /** ASCII, with no space and no bad character. */
  predicate Clean(s: string)
  {
    forall c :: c in s ==> IsAscii(c) && c != ' ' && !IsBadChar(c)
  }

  /** One pass of the underscore loop keeps the name clean, shortens it and
      keeps its view. */
  lemma CollapseStep(s: string)
    requires Clean(s) && IsSubstring("__", s)
    ensures Clean(Replace(s, "__", "_"))
    ensures |Replace(s, "__", "_")| < |s|
    ensures Without(Replace(s, "__", "_"), IsDropped) == Without(s, IsDropped)
  {
    ReplaceShortens(s, "__", "_");
    ReplaceChars(s, "__", "_");
    CollapseDropped(s);
  }

  /** `sanitise_supplier_name(supplier_name)`. The result is the ASCII,
      stripped name with each space made an underscore, `&` written `and`,
      the bad characters removed and every run of underscores squeezed to
      one. It is ASCII, holds no space, none of the bad characters and no
      pair of underscores, and apart from its underscores it spells
      `SanitisedLetters` of the name. */
  method SanitiseSupplierName(supplierName: string) returns (r: string)
    ensures r == Squeeze(Without(Replace(Replace(AsciiStripped(supplierName), " ", "_"), "&", "and"), IsBadChar))
    ensures Clean(r)
    ensures !IsSubstring("__", r)
    ensures Without(r, IsUnderscore) == SanitisedLetters(supplierName)
  {
    var stripped := AsciiStripped(supplierName);
    var s := Replace(Replace(stripped, " ", "_"), "&", "and");
    ghost var replaced := s;
    SpacesReplaced(stripped);
    for j := 0 to |BadSupplierNameCharacters|
      invariant forall c :: c in s ==> IsAscii(c) && c != ' '
      invariant forall k :: 0 <= k < j ==> BadSupplierNameCharacters[k] !in s
      invariant Without(s, IsDropped) == SanitisedLetters(supplierName)
      invariant Without(s, IsBadChar) == Without(replaced, IsBadChar)
    {
      var bad := BadSupplierNameCharacters[j];
      BadCharsListed(bad);
      RemovalStep(s, BadSupplierNameCharacters, j);
      RemoveDropped(s, bad, IsDropped);
      RemoveDropped(s, bad, IsBadChar);
      s := Replace(s, [bad], "");
    }
    NoBadCharsLeft(s);
    WithoutNone(s, IsBadChar);
    ghost var cleaned := s;
    while IsSubstring("__", s)
      invariant Clean(s)
      invariant Without(s, IsDropped) == SanitisedLetters(supplierName)
      invariant Squeeze(s) == Squeeze(cleaned)
      decreases |s|
    {
      CollapseStep(s);
      SqueezeCollapse(s);
      s := Replace(s, "__", "_");
    }
    SqueezeNone(s);
    WithoutAgree(s, IsUnderscore, IsDropped);
    r := s;
  }

  // ---------------------------------------------------------------- uploading

  /** The fields of a service record that name its documents. */
  datatype Service = Service(frameworkSlug: string, supplierCode: string, id: string)

  /** The storage bucket: its short name, the paths whose save the storage
      refuses (S3ResponseError), and the log of what it stored. */
  class Uploader {
    const bucketShortName: string
    const refused: set<string>
    var saved: seq<(string, FileStorage, string)>

    constructor (bucketShortName: string, refused: set<string>)
      ensures this.bucketShortName == bucketShortName && this.refused == refused && saved == []
    {
      this.bucketShortName := bucketShortName;
      this.refused := refused;
      saved := [];
    }

    /** `uploader.save(path, file, acl=acl)`: stores the file unless the storage refuses the path. */
    method Save(path: string, file: FileStorage, acl: string) returns (ok: bool)
      modifies this
      ensures ok <==> path !in refused
      ensures saved == if ok then old(saved) + [(path, file, acl)] else old(saved)
    {
      ok := path !in refused;
      if ok {
        saved := saved + [(path, file, acl)];
      }
    }
  }

  predicate KnownBucket(uploader: Uploader)
  {
    uploader.bucketShortName == "documents" || uploader.bucketShortName == "submissions"
  }

  function Acl(public: bool): string
  {
    if public then "public-read" else "private"
  }

  /** The name `upload_document` stores a field's file under. */
  function UploadPath(uploader: Uploader, service: Service, field: string, file: FileStorage, suffix: string)
    : Result<string, Exception>
  {
    GenerateFileName(service.frameworkSlug, uploader.bucketShortName, service.supplierCode, service.id,
                     field, file.filename, suffix)
  }

  /** `upload_document(...)`: None stands for the `False` returned when the
      storage refuses the file; `urljoin` is a parameter. */
  method UploadDocument(uploader: Uploader, documentsUrl: string, service: Service, field: string,
                        file: FileStorage, public: bool, suffix: string, urljoin: (string, string) -> string)
    returns (r: Result<Option<string>, Exception>)
    requires KnownBucket(uploader)
    modifies uploader
    ensures field !in FileNameSuffixes ==> r == Failure(KeyError) && uploader.saved == old(uploader.saved)
    ensures field in FileNameSuffixes ==>
              var path := UploadPath(uploader, service, field, file, suffix).value;
              && r == Success(if path in uploader.refused then None else Some(urljoin(documentsUrl, path)))
              && uploader.saved == if path in uploader.refused then old(uploader.saved)
                                   else old(uploader.saved) + [(path, file, Acl(public))]
  {
    var path := UploadPath(uploader, service, field, file, suffix);
    if path.Failure? {
      return Failure(path.error);
    }
    var ok := uploader.Save(path.value, file, Acl(public));
    if !ok {
      return Success(None);
    }
    return Success(Some(urljoin(documentsUrl, path.value)));
  }

  /** A field of the returned files map: still the uploaded file when saving
      failed, otherwise the document's URL. */
  datatype Entry = Pending(file: FileStorage) | Uploaded(url: string)

  /** What the upload loop has established for field `k` once it is processed. */
  predicate Processed(k: string, f: FileStorage, files: map<string, Entry>, errors: map<string, string>,
                      saved: seq<(string, FileStorage, string)>,
                      uploader: Uploader, service: Service, documentsUrl: string, public: bool, suffix: string,
                      urljoin: (string, string) -> string)
  {
    && k in files && k in FileNameSuffixes
    && var path := UploadPath(uploader, service, k, f, suffix).value;
    && (k in errors <==> files[k].Pending?)
    && (files[k].Pending? ==> files[k].file == f && errors[k] == SaveError
                              && (path in uploader.refused || urljoin(documentsUrl, path) == ""))
    && (files[k].Uploaded? ==> files[k].url == urljoin(documentsUrl, path) && files[k].url != ""
                               && (path, f, Acl(public)) in saved)
  }

  /** A processed field stays processed while other fields are handled and the log grows. */
  lemma ProcessedStays(k: string, f: FileStorage, files: map<string, Entry>, errors: map<string, string>,
                       saved: seq<(string, FileStorage, string)>,
                       files': map<string, Entry>, errors': map<string, string>,
                       saved': seq<(string, FileStorage, string)>,
                       uploader: Uploader, service: Service, documentsUrl: string, public: bool, suffix: string,
                       urljoin: (string, string) -> string)
    requires Processed(k, f, files, errors, saved, uploader, service, documentsUrl, public, suffix, urljoin)
    requires k in files' && files'[k] == files[k] && (k in errors' <==> k in errors)
    requires k in errors ==> errors'[k] == errors[k]
    requires saved <= saved'
    ensures Processed(k, f, files', errors', saved', uploader, service, documentsUrl, public, suffix, urljoin)
  {
    if files[k].Uploaded? {
      var path := UploadPath(uploader, service, k, f, suffix).value;
      var i :| 0 <= i < |saved| && saved[i] == (path, f, Acl(public));
      assert saved'[i] == saved[i];
    }
  }

  /** The log entry `upload_document` writes when field `k`, holding `f`, is saved. */
  function SaveEntry(uploader: Uploader, service: Service, k: string, f: FileStorage, public: bool, suffix: string)
    : (string, FileStorage, string)
    requires k in FileNameSuffixes
  {
    (UploadPath(uploader, service, k, f, suffix).value, f, Acl(public))
  }

  /** The log entries of the fields `order`, saved in that order. */
  function SaveEntries(order: seq<string>, files: map<string, FileStorage>, uploader: Uploader, service: Service,
                       public: bool, suffix: string): seq<(string, FileStorage, string)>
    requires forall k :: k in order ==> k in files && k in FileNameSuffixes
  {
    if order == [] then []
    else
      SaveEntries(order[..|order| - 1], files, uploader, service, public, suffix)
        + [SaveEntry(uploader, service, order[|order| - 1], files[order[|order| - 1]], public, suffix)]
  }

  /** `order` lists, each once, exactly those of the fields `done` whose
      save the storage accepted. */
  predicate SavedFields(order: seq<string>, done: set<string>, files: map<string, FileStorage>,
                        uploader: Uploader, service: Service, suffix: string)
  {
    && (forall i, j :: 0 <= i < j < |order| ==> order[i] != order[j])
    && (forall k :: k in order ==> k in done)
    && (forall k :: k in done ==>
          && k in files && k in FileNameSuffixes
          && (k in order <==> Accepted(uploader, service, k, files[k], suffix)))
  }

  /** One turn of the upload loop of `upload_service_documents`: field `k`
      is uploaded and becomes its URL, or keeps its file and gets an error
      when saving fails. Nothing else in the two maps changes. */
  method UploadField(uploader: Uploader, documentsUrl: string, service: Service, k: string, f: FileStorage,
                     files: map<string, Entry>, errors: map<string, string>,
                     public: bool, suffix: string, urljoin: (string, string) -> string)
    returns (r: Result<(map<string, Entry>, map<string, string>), Exception>)
    requires KnownBucket(uploader)
    requires k in files && files[k] == Pending(f) && k !in errors
    modifies uploader
    ensures r.Failure? ==> r.error == KeyError
    ensures r.Success? ==>
              var (files', errors') := r.value;
              && files'.Keys == files.Keys && errors'.Keys <= errors.Keys + {k}
              && (forall j :: j in files && j != k ==> j in files' && files'[j] == files[j])
              && (forall j :: j in errors ==> j in errors' && errors'[j] == errors[j])
              && Processed(k, f, files', errors', uploader.saved, uploader, service, documentsUrl, public,
                           suffix, urljoin)
    ensures r.Failure? ==> uploader.saved == old(uploader.saved)
    ensures r.Success? ==>
              && k in FileNameSuffixes
              && uploader.saved == old(uploader.saved)
                   + if Accepted(uploader, service, k, f, suffix) then [SaveEntry(uploader, service, k, f, public, suffix)]
                     else []
    ensures old(uploader.saved) <= uploader.saved
  {
    var res := UploadDocument(uploader, documentsUrl, service, k, f, public, suffix, urljoin);
    if res.Failure? {
      return Failure(res.error);
    }
    var path := UploadPath(uploader, service, k, f, suffix).value;
    if res.value.None? || res.value.value == "" {
      return Success((files, errors[k := SaveError]));
    }
    assert uploader.saved[|uploader.saved| - 1] == (path, f, Acl(public));
    return Success((files[k := Uploaded(res.value.value)], errors));
  }

  /** The state of the upload loop with `todo` still to upload: those
      fields still hold their files, the others are processed. */
  predicate UploadLoop(todo: set<string>, kept: map<string, FileStorage>,
                       files: map<string, Entry>, errors: map<string, string>,
                       saved: seq<(string, FileStorage, string)>,
                       uploader: Uploader, service: Service, documentsUrl: string, public: bool, suffix: string,
                       urljoin: (string, string) -> string)
  {
    && todo <= kept.Keys && files.Keys == kept.Keys
    && errors.Keys <= kept.Keys - todo
    && (forall k :: k in todo ==> files[k] == Pending(kept[k]))
    && (forall k :: k in kept.Keys - todo ==>
          Processed(k, kept[k], files, errors, saved, uploader, service, documentsUrl, public, suffix, urljoin))
  }

  /** Uploading one more field `k` keeps the loop's state. */
  lemma UploadLoopStep(todo: set<string>, k: string, kept: map<string, FileStorage>,
                       files: map<string, Entry>, errors: map<string, string>,
                       saved: seq<(string, FileStorage, string)>,
                       files': map<string, Entry>, errors': map<string, string>,
                       saved': seq<(string, FileStorage, string)>,
                       uploader: Uploader, service: Service, documentsUrl: string, public: bool, suffix: string,
                       urljoin: (string, string) -> string)
    requires UploadLoop(todo, kept, files, errors, saved, uploader, service, documentsUrl, public, suffix, urljoin)
    requires k in todo
    requires files'.Keys == files.Keys && errors'.Keys <= errors.Keys + {k}
    requires forall j :: j in files && j != k ==> j in files' && files'[j] == files[j]
    requires forall j :: j in errors ==> j in errors' && errors'[j] == errors[j]
    requires Processed(k, kept[k], files', errors', saved', uploader, service, documentsUrl, public, suffix, urljoin)
    requires saved <= saved'
    ensures UploadLoop(todo - {k}, kept, files', errors', saved', uploader, service, documentsUrl, public, suffix,
                       urljoin)
  {
    forall j | j in kept.Keys - todo
      ensures Processed(j, kept[j], files', errors', saved', uploader, service, documentsUrl, public, suffix, urljoin)
    {
      ProcessedStays(j, kept[j], files, errors, saved, files', errors', saved', uploader, service,
                     documentsUrl, public, suffix, urljoin);
    }
  }

  /** Whether the storage accepts the save of field `k`, holding `f`. */
  predicate Accepted(uploader: Uploader, service: Service, k: string, f: FileStorage, suffix: string)
    requires k in FileNameSuffixes
  {
    UploadPath(uploader, service, k, f, suffix).value !in uploader.refused
  }

  /** The saved fields once field `k` is handled. */
  function NextOrder(order: seq<string>, k: string, kept: map<string, FileStorage>, uploader: Uploader,
                     service: Service, suffix: string): seq<string>
    requires k in kept && k in FileNameSuffixes
  {
    if Accepted(uploader, service, k, kept[k], suffix) then order + [k] else order
  }

  /** Handling field `k` adds it to the saved fields exactly when its save is accepted. */
  lemma SavedFieldsStep(order: seq<string>, todo: set<string>, k: string, kept: map<string, FileStorage>,
                        uploader: Uploader, service: Service, suffix: string)
    requires todo <= kept.Keys && k in todo && k in FileNameSuffixes
    requires SavedFields(order, kept.Keys - todo, kept, uploader, service, suffix)
    ensures SavedFields(NextOrder(order, k, kept, uploader, service, suffix), kept.Keys - (todo - {k}), kept,
                        uploader, service, suffix)
  {
  }

  /** The entries of the saved fields grow by the entry of `k` when it is saved. */
  lemma SaveEntriesStep(order: seq<string>, k: string, kept: map<string, FileStorage>,
                        uploader: Uploader, service: Service, public: bool, suffix: string)
    requires forall j :: j in order ==> j in kept && j in FileNameSuffixes
    requires k in kept && k in FileNameSuffixes
    ensures SaveEntries(NextOrder(order, k, kept, uploader, service, suffix), kept, uploader, service, public, suffix)
         == SaveEntries(order, kept, uploader, service, public, suffix)
            + if Accepted(uploader, service, k, kept[k], suffix) then [SaveEntry(uploader, service, k, kept[k], public, suffix)]
              else []
  {
    if Accepted(uploader, service, k, kept[k], suffix) {
      assert (order + [k])[..|order|] == order;
    }
  }

  /** One turn of the upload loop keeps the storage log equal to what was
      there before plus the entries of the saved fields. */
  lemma SavedLogStep(saved0: seq<(string, FileStorage, string)>, before: seq<(string, FileStorage, string)>,
                     after: seq<(string, FileStorage, string)>, order: seq<string>, todo: set<string>, k: string,
                     kept: map<string, FileStorage>, uploader: Uploader, service: Service, public: bool,
                     suffix: string)
    requires todo <= kept.Keys && k in todo && k in FileNameSuffixes
    requires SavedFields(order, kept.Keys - todo, kept, uploader, service, suffix)
    requires before == saved0 + SaveEntries(order, kept, uploader, service, public, suffix)
    requires after == before + if Accepted(uploader, service, k, kept[k], suffix)
                               then [SaveEntry(uploader, service, k, kept[k], public, suffix)] else []
    ensures SavedFields(NextOrder(order, k, kept, uploader, service, suffix), kept.Keys - (todo - {k}), kept,
                        uploader, service, suffix)
    ensures after == saved0 + SaveEntries(NextOrder(order, k, kept, uploader, service, suffix), kept, uploader,
                                          service, public, suffix)
  {
    SavedFieldsStep(order, todo, k, kept, uploader, service, suffix);
    SaveEntriesStep(order, k, kept, uploader, service, public, suffix);
  }

  /** The whole state of the upload loop: the fields' progress, and the
      storage log holding what was there at the start plus one entry per
      saved field. */
  predicate UploadProgress(todo: set<string>, kept: map<string, FileStorage>,
                           files: map<string, Entry>, errors: map<string, string>, order: seq<string>,
                           saved0: seq<(string, FileStorage, string)>, saved: seq<(string, FileStorage, string)>,
                           uploader: Uploader, service: Service, documentsUrl: string, public: bool, suffix: string,
                           urljoin: (string, string) -> string)
  {
    && UploadLoop(todo, kept, files, errors, saved, uploader, service, documentsUrl, public, suffix, urljoin)
    && SavedFields(order, kept.Keys - todo, kept, uploader, service, suffix)
    && saved == saved0 + SaveEntries(order, kept, uploader, service, public, suffix)
  }

  /** Uploading field `k` keeps the loop's whole state. */
  lemma UploadProgressStep(todo: set<string>, k: string, kept: map<string, FileStorage>,
                           files: map<string, Entry>, errors: map<string, string>, order: seq<string>,
                           saved0: seq<(string, FileStorage, string)>, saved: seq<(string, FileStorage, string)>,
                           files': map<string, Entry>, errors': map<string, string>,
                           saved': seq<(string, FileStorage, string)>,
                           uploader: Uploader, service: Service, documentsUrl: string, public: bool, suffix: string,
                           urljoin: (string, string) -> string)
    requires UploadProgress(todo, kept, files, errors, order, saved0, saved, uploader, service, documentsUrl, public,
                            suffix, urljoin)
    requires k in todo && k in FileNameSuffixes
    requires files'.Keys == files.Keys && errors'.Keys <= errors.Keys + {k}
    requires forall j :: j in files && j != k ==> j in files' && files'[j] == files[j]
    requires forall j :: j in errors ==> j in errors' && errors'[j] == errors[j]
    requires Processed(k, kept[k], files', errors', saved', uploader, service, documentsUrl, public, suffix, urljoin)
    requires saved' == saved + if Accepted(uploader, service, k, kept[k], suffix)
                               then [SaveEntry(uploader, service, k, kept[k], public, suffix)] else []
    ensures UploadProgress(todo - {k}, kept, files', errors', NextOrder(order, k, kept, uploader, service, suffix),
                           saved0, saved', uploader, service, documentsUrl, public, suffix, urljoin)
  {
    UploadLoopStep(todo, k, kept, files, errors, saved, files', errors', saved', uploader, service, documentsUrl,
                   public, suffix, urljoin);
    SavedLogStep(saved0, saved, saved', order, todo, k, kept, uploader, service, public, suffix);
  }

  /** While the loop runs, the log only grows. */
  lemma UploadProgressGrows(todo: set<string>, kept: map<string, FileStorage>,
                            files: map<string, Entry>, errors: map<string, string>, order: seq<string>,
                            saved0: seq<(string, FileStorage, string)>, saved: seq<(string, FileStorage, string)>,
                            uploader: Uploader, service: Service, documentsUrl: string, public: bool, suffix: string,
                            urljoin: (string, string) -> string)
    requires UploadProgress(todo, kept, files, errors, order, saved0, saved, uploader, service, documentsUrl, public,
                            suffix, urljoin)
    ensures saved0 <= saved
  {
  }

  /** Once no field is left, every field is processed and saved as the loop's state says. */
  lemma UploadProgressDone(kept: map<string, FileStorage>,
                           files: map<string, Entry>, errors: map<string, string>, order: seq<string>,
                           saved0: seq<(string, FileStorage, string)>, saved: seq<(string, FileStorage, string)>,
                           uploader: Uploader, service: Service, documentsUrl: string, public: bool, suffix: string,
                           urljoin: (string, string) -> string)
    requires UploadProgress({}, kept, files, errors, order, saved0, saved, uploader, service, documentsUrl, public,
                            suffix, urljoin)
    ensures files.Keys == kept.Keys && errors.Keys <= files.Keys
    ensures forall k :: k in kept ==>
              Processed(k, kept[k], files, errors, saved, uploader, service, documentsUrl, public, suffix, urljoin)
    ensures SavedFields(order, kept.Keys, kept, uploader, service, suffix)
    ensures saved == saved0 + SaveEntries(order, kept, uploader, service, public, suffix)
    ensures saved0 <= saved
  {
    assert kept.Keys - {} == kept.Keys;
  }

  /** The upload loop of `upload_service_documents`: each file is uploaded in
      turn; a field whose save fails keeps its file and gets an error, the
      others become URLs. A field with no stored-name stem raises KeyError. */
  method UploadEach(uploader: Uploader, documentsUrl: string, service: Service, kept: map<string, FileStorage>,
                    public: bool, suffix: string, urljoin: (string, string) -> string)
    returns (r: Result<(map<string, Entry>, map<string, string>), Exception>, ghost order: seq<string>)
    requires KnownBucket(uploader)
    modifies uploader
    ensures r.Failure? ==> r.error == KeyError
    ensures r.Success? ==>
              var (files, errors) := r.value;
              && files.Keys == kept.Keys && errors.Keys <= files.Keys
              && forall k :: k in kept ==>
                   Processed(k, kept[k], files, errors, uploader.saved, uploader, service, documentsUrl, public,
                             suffix, urljoin)
    ensures r.Success? ==>
              && SavedFields(order, kept.Keys, kept, uploader, service, suffix)
              && uploader.saved == old(uploader.saved) + SaveEntries(order, kept, uploader, service, public, suffix)
    ensures old(uploader.saved) <= uploader.saved
  {
    var files: map<string, Entry> := map k | k in kept :: Pending(kept[k]);
    var errors: map<string, string> := map[];
    var todo := kept.Keys;
    order := [];
    while todo != {}
      invariant UploadProgress(todo, kept, files, errors, order, old(uploader.saved), uploader.saved, uploader, service,
                               documentsUrl, public, suffix, urljoin)
      decreases todo
    {
      var k :| k in todo;
      var before := uploader.saved;
      var step := UploadField(uploader, documentsUrl, service, k, kept[k], files, errors, public, suffix, urljoin);
      if step.Failure? {
        UploadProgressGrows(todo, kept, files, errors, order, old(uploader.saved), before, uploader, service,
                            documentsUrl, public, suffix, urljoin);
        return Failure(step.error), order;
      }
      UploadProgressStep(todo, k, kept, files, errors, order, old(uploader.saved), before, step.value.0, step.value.1,
                         uploader.saved, uploader, service, documentsUrl, public, suffix, urljoin);
      order := NextOrder(order, k, kept, uploader, service, suffix);
      files, errors := step.value.0, step.value.1;
      todo := todo - {k};
    }
    UploadProgressDone(kept, files, errors, order, old(uploader.saved), uploader.saved, uploader, service,
                       documentsUrl, public, suffix, urljoin);
    return Success((files, errors)), order;
  }

  /** The opening of `upload_service_documents`: the request's files of the
      upload fields, without the empty ones. Those files are rewound. */
  method UploadCandidates(requestFiles: map<string, FileStorage>, uploadQuestionIds: seq<string>)
    returns (kept: map<string, FileStorage>)
    modifies set k | k in uploadQuestionIds && k in requestFiles :: requestFiles[k]
    ensures forall k :: k in uploadQuestionIds && k in requestFiles ==> requestFiles[k].pos == 0
    ensures forall k :: k in kept ==>
              k in uploadQuestionIds && k in requestFiles && kept[k] == requestFiles[k] && |requestFiles[k].data| > 0
    ensures forall k :: k in uploadQuestionIds && k in requestFiles && k !in kept ==>
              |requestFiles[k].data| == 0 || old(requestFiles[k].pos) >= |requestFiles[k].data|
  {
    var candidates := map k | k in uploadQuestionIds && k in requestFiles :: requestFiles[k];
    assert candidates.Values == set k | k in uploadQuestionIds && k in requestFiles :: requestFiles[k] by {
      forall v | v in candidates.Values ensures v in set k | k in uploadQuestionIds && k in requestFiles :: requestFiles[k] {
        var k :| k in candidates && candidates[k] == v;
      }
      forall k | k in uploadQuestionIds && k in requestFiles ensures requestFiles[k] in candidates.Values {
        assert candidates[k] == requestFiles[k];
      }
    }
    kept := FilterEmptyFiles(candidates);
    forall k | k in uploadQuestionIds && k in requestFiles
      ensures requestFiles[k].pos == 0
      ensures k !in kept ==> |requestFiles[k].data| == 0 || old(requestFiles[k].pos) >= |requestFiles[k].data|
    {
      assert k in candidates;
    }
  }

  /** `upload_service_documents(...)`. The upload fields of the section are
      `uploadQuestionIds`; the size limit, the time-stamp suffix and
      `urljoin` are parameters. The files of those fields are rewound, and
      `kept` is the non-empty ones among them. Invalid files stop everything
      before any upload, and every kept file that fails a check is reported;
      otherwise every kept file is uploaded, each field ends as a URL or,
      when saving failed, as the file with an error beside it, and the
      storage log grows by one entry for each file whose save was accepted,
      and no other. */
  method UploadServiceDocuments(uploader: Uploader, documentsUrl: string, service: Service,
                                requestFiles: map<string, FileStorage>, uploadQuestionIds: seq<string>,
                                public: bool, sizeLimit: int, suffix: string, urljoin: (string, string) -> string)
    returns (r: Result<(Option<map<string, Entry>>, map<string, string>), Exception>,
             ghost kept: map<string, FileStorage>, ghost order: seq<string>)
    requires KnownBucket(uploader)
    modifies uploader, set k | k in uploadQuestionIds && k in requestFiles :: requestFiles[k]
    ensures forall k :: k in uploadQuestionIds && k in requestFiles ==> requestFiles[k].pos == 0
    ensures forall k :: k in kept ==>
              k in uploadQuestionIds && k in requestFiles && kept[k] == requestFiles[k] && |requestFiles[k].data| > 0
    ensures forall k :: k in uploadQuestionIds && k in requestFiles && k !in kept ==>
              |requestFiles[k].data| == 0 || old(requestFiles[k].pos) >= |requestFiles[k].data|
    ensures r.Failure? ==> r.error == KeyError
    ensures r.Success? && r.value.0.None? ==>
              var errors := r.value.1;
              && errors != map[] && errors.Keys <= kept.Keys
              && (forall k :: k in kept ==> (k in errors <==> DocumentError(kept[k], sizeLimit).Some?))
              && (forall k :: k in errors ==> errors[k] == DocumentError(kept[k], sizeLimit).value)
              && uploader.saved == old(uploader.saved)
    ensures r.Success? && r.value.0.Some? ==>
              var files := r.value.0.value;
              var errors := r.value.1;
              && files.Keys == kept.Keys && errors.Keys <= files.Keys
              && (forall k :: k in kept ==>
                    && DocumentError(kept[k], sizeLimit) == None
                    && Processed(k, kept[k], files, errors, uploader.saved, uploader, service, documentsUrl, public,
                                 suffix, urljoin))
              && SavedFields(order, kept.Keys, kept, uploader, service, suffix)
              && uploader.saved == old(uploader.saved) + SaveEntries(order, kept, uploader, service, public, suffix)
    ensures old(uploader.saved) <= uploader.saved
  {
    order := [];
    // The uploads change only the uploader, never one of the request's files.
    assert forall k :: k in requestFiles ==> requestFiles[k] as object != uploader as object;
    var candidates := UploadCandidates(requestFiles, uploadQuestionIds);
    kept := candidates;
    var invalid := ValidateDocuments(candidates, sizeLimit);
    if invalid != map[] {
      return Success((None, invalid)), kept, order;
    }
    if |candidates| == 0 {
      return Success((Some(map[]), map[])), kept, order;
    }
    var uploaded;
    uploaded, order := UploadEach(uploader, documentsUrl, service, candidates, public, suffix, urljoin);
    if uploaded.Failure? {
      return Failure(uploaded.error), kept, order;
    }
    return Success((Some(uploaded.value.0), uploaded.value.1)), kept, order;
  }
}
