/** Shared vocabulary of the model: optional values, results, the exception
    classes the modelled Python code raises, bytes, and the string operations
    (Python's `strip`, `replace`, `split`, `join`, `lower`) its helpers use. */
module Common {

  datatype Option<+T> = None | Some(value: T)

  datatype Result<+T, +E> = Success(value: T) | Failure(error: E)

  /** The exception classes that the modelled code raises, catches or lets escape. */
  datatype Exception =
    | InvalidToken   // cryptography.fernet.InvalidToken
    | ValueError
    | TypeError
    | KeyError
    | OverflowError
    | StructError    // struct.error
    | LookupFailed   // an injected collaborator (the data API client) failed

  type byte = x: int | 0 <= x < 256

  // ---------------------------------------------------------------- characters

  predicate IsDigit(c: char) { '0' <= c <= '9' }

  /** Every character is an ASCII decimal digit. */
  predicate AllDigits(s: string)
  {
    forall i :: 0 <= i < |s| ==> IsDigit(s[i])
  }

  function DigitValue(c: char): (d: nat)
    requires IsDigit(c)
    ensures d < 10
  {
    c as int - '0' as int
  }

  predicate IsAsciiLetter(c: char) { 'A' <= c <= 'Z' || 'a' <= c <= 'z' }

  predicate IsAsciiAlnum(c: char) { IsAsciiLetter(c) || IsDigit(c) }

  predicate IsAscii(c: char) { c as int < 128 }

  /** Whitespace of a Python 2 byte string (`str.isspace`, `str.strip`), and
      the regex class `\s` without re.UNICODE: space, tab, LF, VT, FF, CR. */
  predicate IsAsciiWhitespace(c: char)
  {
    c == ' ' || '\t' <= c <= '\r'
  }

  /** Whitespace of a Python unicode string (`unicode.isspace`, `unicode.strip`,
      and `\s` under re.UNICODE), as of the Unicode 5.2 database of Python 2.7. */
  predicate IsUnicodeWhitespace(c: char)
  {
    || IsAsciiWhitespace(c)
    || '\U{1C}' <= c <= '\U{1F}' || c == '\U{85}' || c == '\U{A0}' || c == '\U{1680}' || c == '\U{180E}'
    || '\U{2000}' <= c <= '\U{200A}' || c == '\U{2028}' || c == '\U{2029}' || c == '\U{202F}'
    || c == '\U{205F}' || c == '\U{3000}'
  }

  function AsciiLower(c: char): char
  {
    if 'A' <= c <= 'Z' then (c as int + 32) as char else c
  }

  /** `str.lower()` of a byte string: only ASCII capitals change. */
  function Lower(s: string): (r: string)
    ensures |r| == |s|
    ensures forall i :: 0 <= i < |s| ==> r[i] == AsciiLower(s[i])
  {
    seq(|s|, i requires 0 <= i < |s| => AsciiLower(s[i]))
  }

  // ---------------------------------------------------------------- prefixes and searching

  predicate StartsWith(s: string, prefix: string)
  {
    |prefix| <= |s| && s[..|prefix|] == prefix
  }

  predicate EndsWith(s: string, suffix: string)
  {
    |suffix| <= |s| && s[|s| - |suffix|..] == suffix
  }

  /** `t` occurs in `s` starting at index `i`. */
  predicate OccursAt(t: string, s: string, i: int)
  {
    0 <= i <= |s| - |t| && s[i..i + |t|] == t
  }

  /** Python's `t in s` for strings. */
  predicate IsSubstring(t: string, s: string)
  {
    exists i | 0 <= i <= |s| - |t| :: OccursAt(t, s, i)
  }

  /** Index of the first occurrence of `c` (Python's `s.index(c)`). */
  function IndexOf(s: string, c: char): (i: nat)
    requires c in s
    ensures i < |s| && s[i] == c && c !in s[..i]
  {
    if s[0] == c then 0 else 1 + IndexOf(s[1..], c)
  }

  /** Index of the last occurrence of `c` (Python's `s.rindex(c)`). */
  function LastIndexOf(s: string, c: char): (i: nat)
    requires c in s
    ensures i < |s| && s[i] == c && c !in s[i + 1..]
  {
    if s[|s| - 1] == c then |s| - 1 else LastIndexOf(s[..|s| - 1], c)
  }

  /** The last occurrence is the one with no occurrence after it. */
  lemma LastIndexUnique(s: string, c: char, j: nat)
    requires j < |s| && s[j] == c && c !in s[j + 1..]
    ensures LastIndexOf(s, c) == j
  {
  }

  // ---------------------------------------------------------------- strip

  /** `lstrip` of the characters satisfying `ws`. */
  function TrimLeft(s: string, ws: char -> bool): (r: string)
    ensures |r| <= |s| && r == s[|s| - |r|..]
    ensures forall k :: 0 <= k < |s| - |r| ==> ws(s[k])
    ensures r != [] ==> !ws(r[0])
  {
    if |s| > 0 && ws(s[0]) then TrimLeft(s[1..], ws) else s
  }

  /** `rstrip` of the characters satisfying `ws`. */
  function TrimRight(s: string, ws: char -> bool): (r: string)
    ensures |r| <= |s| && r == s[..|r|]
    ensures forall k :: |r| <= k < |s| ==> ws(s[k])
    ensures r != [] ==> !ws(r[|r| - 1])
  {
    if |s| > 0 && ws(s[|s| - 1]) then TrimRight(s[..|s| - 1], ws) else s
  }

  /** `r` is the slice of `s` from `i` and everything around it satisfies `ws`. */
  predicate StrippedAt(s: string, ws: char -> bool, i: int, r: string)
  {
    && 0 <= i <= |s| - |r| && r == s[i..i + |r|]
    && (forall k :: 0 <= k < i ==> ws(s[k]))
    && (forall k :: i + |r| <= k < |s| ==> ws(s[k]))
  }

  /** `strip`: the longest slice of `s` that neither begins nor ends with a
      character satisfying `ws`, cut out of a run of such characters on each side. */
  function Strip(s: string, ws: char -> bool): (r: string)
    ensures r == [] || (!ws(r[0]) && !ws(r[|r| - 1]))
    ensures exists i :: StrippedAt(s, ws, i, r)
  {
    var left := TrimLeft(s, ws);
    var r := TrimRight(left, ws);
    var i := |s| - |left|;
    assert StrippedAt(s, ws, i, r);
    r
  }

  /** Stripping what is already stripped changes nothing. */
  lemma StripStripped(s: string, ws: char -> bool)
    requires s == [] || (!ws(s[0]) && !ws(s[|s| - 1]))
    ensures Strip(s, ws) == s
  {
  }

  /** Characters that `ws` strips in front of a string do not change `lstrip`. */
  lemma {:induction false} TrimLeftPadded(a: string, t: string, ws: char -> bool)
    requires forall k :: 0 <= k < |a| ==> ws(a[k])
    ensures TrimLeft(a + t, ws) == TrimLeft(t, ws)
    decreases |a|
  {
    if a == [] {
      assert a + t == t;
    } else {
      assert (a + t)[1..] == a[1..] + t;
      TrimLeftPadded(a[1..], t, ws);
    }
  }

  /** Characters that `ws` strips behind a string do not change `rstrip`. */
  lemma {:induction false} TrimRightPadded(t: string, b: string, ws: char -> bool)
    requires forall k :: 0 <= k < |b| ==> ws(b[k])
    ensures TrimRight(t + b, ws) == TrimRight(t, ws)
    decreases |b|
  {
    if b == [] {
      assert t + b == t;
    } else {
      assert (t + b)[..|t + b| - 1] == t + b[..|b| - 1];
      TrimRightPadded(t, b[..|b| - 1], ws);
    }
  }

  /** `strip` removes exactly the padding around a stripped string. */
  lemma StripPadded(a: string, s: string, b: string, ws: char -> bool)
    requires forall k :: 0 <= k < |a| ==> ws(a[k])
    requires forall k :: 0 <= k < |b| ==> ws(b[k])
    requires s == [] || (!ws(s[0]) && !ws(s[|s| - 1]))
    ensures Strip(a + s + b, ws) == s
  {
    assert a + s + b == a + (s + b);
    TrimLeftPadded(a, s + b, ws);
    if s == [] {
      assert s + b == b;
    } else {
      assert (s + b)[0] == s[0];
      assert TrimLeft(s + b, ws) == s + b;
      TrimRightPadded(s, b, ws);
    }
  }

  // ---------------------------------------------------------------- filtering and replacing

  /** `s` without every character satisfying `bad` (a chain of `replace(c, '')`). */
  function Without(s: string, bad: char -> bool): (r: string)
    ensures |r| <= |s|
  {
    if s == [] then []
    else if bad(s[0]) then Without(s[1..], bad)
    else [s[0]] + Without(s[1..], bad)
  }

  /** What `Without` keeps comes from `s` and avoids `bad`. */
  lemma {:induction false} WithoutExcludes(s: string, bad: char -> bool)
    ensures forall c :: c in Without(s, bad) ==> c in s && !bad(c)
    decreases |s|
  {
    if s != [] {
      WithoutExcludes(s[1..], bad);
    }
  }

  lemma {:induction false} WithoutConcat(a: string, b: string, bad: char -> bool)
    ensures Without(a + b, bad) == Without(a, bad) + Without(b, bad)
    decreases |a|
  {
    if a == [] {
      assert a + b == b;
    } else {
      assert (a + b)[1..] == a[1..] + b;
      WithoutConcat(a[1..], b, bad);
    }
  }

  /** A string none of whose characters satisfies `bad` is left as it is. */
  lemma {:induction false} WithoutNone(s: string, bad: char -> bool)
    requires forall c :: c in s ==> !bad(c)
    ensures Without(s, bad) == s
    decreases |s|
  {
    if s != [] {
      WithoutNone(s[1..], bad);
    }
  }

  /** Python's `s.replace(pat, rep)`: every non-overlapping occurrence of `pat`,
      scanning left to right, is replaced by `rep`. */
  function Replace(s: string, pat: string, rep: string): string
    requires |pat| > 0
    decreases |s|
  {
    if |s| < |pat| then s
    else if s[..|pat|] == pat then rep + Replace(s[|pat|..], pat, rep)
    else [s[0]] + Replace(s[1..], pat, rep)
  }

  /** Replacing one character by a string that avoids `c` removes every `c`
      and introduces only characters of `rep`. */
  lemma {:induction false} ReplaceCharRemoves(s: string, c: char, rep: string)
    requires c !in rep
    ensures c !in Replace(s, [c], rep)
    ensures forall x :: x in Replace(s, [c], rep) ==> x in s || x in rep
    decreases |s|
  {
    if |s| >= 1 {
      ReplaceCharRemoves(s[1..], c, rep);
    }
  }

  /** A replacement whose text avoids `x` keeps `x` out of a string without it. */
  lemma {:induction false} ReplaceKeepsOut(s: string, pat: string, rep: string, x: char)
    requires |pat| > 0 && x !in s && x !in rep
    ensures x !in Replace(s, pat, rep)
    decreases |s|
  {
    if |s| >= |pat| {
      if s[..|pat|] == pat {
        ReplaceKeepsOut(s[|pat|..], pat, rep, x);
      } else {
        ReplaceKeepsOut(s[1..], pat, rep, x);
      }
    }
  }

  /** Every character of a replacement's output comes from the input or from `rep`. */
  lemma {:induction false} ReplaceChars(s: string, pat: string, rep: string)
    requires |pat| > 0
    ensures forall x :: x in Replace(s, pat, rep) ==> x in s || x in rep
    decreases |s|
  {
    if |s| >= |pat| {
      if s[..|pat|] == pat {
        ReplaceChars(s[|pat|..], pat, rep);
      } else {
        ReplaceChars(s[1..], pat, rep);
      }
    }
  }

  /** A replacement by shorter text never lengthens the string, and shortens
      it whenever the pattern occurs. */
  lemma {:induction false} ReplaceShortens(s: string, pat: string, rep: string)
    requires |pat| > 0 && |rep| < |pat|
    ensures |Replace(s, pat, rep)| <= |s|
    ensures IsSubstring(pat, s) ==> |Replace(s, pat, rep)| < |s|
    decreases |s|
  {
    if |s| >= |pat| {
      if s[..|pat|] == pat {
        ReplaceShortens(s[|pat|..], pat, rep);
      } else {
        ReplaceShortens(s[1..], pat, rep);
        if IsSubstring(pat, s) {
          var i :| 0 <= i <= |s| - |pat| && OccursAt(pat, s, i);
          assert i != 0;
          assert OccursAt(pat, s[1..], i - 1) by {
            assert s[1..][i - 1..i - 1 + |pat|] == s[i..i + |pat|];
          }
        }
      }
    }
  }

  // ---------------------------------------------------------------- split and join

  /** Python's `s.split(sep)` for a one-character separator. */
  function Split(s: string, sep: char): (parts: seq<string>)
    ensures |parts| >= 1
    ensures forall p :: p in parts ==> sep !in p
    decreases |s|
  {
    if sep !in s then [s]
    else
      var i := IndexOf(s, sep);
      [s[..i]] + Split(s[i + 1..], sep)
  }

  /** Python's `sep.join(parts)`. */
  function Join(parts: seq<string>, sep: string): string
  {
    if parts == [] then ""
    else if |parts| == 1 then parts[0]
    else parts[0] + sep + Join(parts[1..], sep)
  }

  /** Joining with a separator that no part contains, then splitting, gives the parts back. */
  lemma {:induction false} SplitJoin(parts: seq<string>, sep: char)
    requires |parts| >= 1
    requires forall p :: p in parts ==> sep !in p
    ensures Split(Join(parts, [sep]), sep) == parts
    decreases |parts|
  {
    if |parts| > 1 {
      var j := Join(parts[1..], [sep]);
      var s := parts[0] + [sep] + j;
      assert s[|parts[0]|] == sep;
      assert s[..|parts[0]|] == parts[0];
      assert parts[0] in parts;
      assert IndexOf(s, sep) == |parts[0]|;
      assert s[|parts[0]| + 1..] == j;
      SplitJoin(parts[1..], sep);
    }
  }
}
