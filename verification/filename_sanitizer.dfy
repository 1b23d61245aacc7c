/** ValidateAndSanitizeFilename of SpeechArchiveManager: a caller-suggested name becomes
    a file name that is non-empty, free of the platform's invalid characters, ends in
    ".dat" and is at most 200 characters long. The clock reading used for the default
    name and the platform's invalid-character list are parameters. */
module FilenameSanitizer {

  const MAX_FILENAME_LENGTH := 200
  const EXTENSION := ".dat"
  const PLACEHOLDER := '_'
  const DEFAULT_PREFIX := "speech_"

  /** Path.GetInvalidFileNameChars() on Linux, macOS, Android and iOS, in its order. */
  const UNIX_INVALID_CHARS: seq<char> := ['\0', '/']

  /** Path.GetInvalidFileNameChars() on Windows, in its order. */
  const WINDOWS_INVALID_CHARS: seq<char> :=
    ['"', '<', '>', '|'] + seq(32, i requires 0 <= i < 32 => i as char) + [':', '*', '?', '\\', '/']

  /** The characters a sanitized name must be able to keep: the placeholder and those of ".dat". */
  predicate KeepsExtensionChars(invalid: seq<char>)
  {
    PLACEHOLDER !in invalid && '.' !in invalid && 'd' !in invalid && 'a' !in invalid && 't' !in invalid
  }

  /** What one character becomes once every invalid character is replaced. */
  function Cleaned(c: char, invalid: seq<char>): char
  {
    if c in invalid then PLACEHOLDER else c
  }

  /** A name the archive accepts as it is. */
  predicate WellFormedName(name: string, invalid: seq<char>)
  {
    EndsWithExtension(name) && |name| <= MAX_FILENAME_LENGTH &&
    forall i :: 0 <= i < |name| ==> name[i] !in invalid
  }

  /** `EndsWith(".dat", StringComparison.OrdinalIgnoreCase)`. Only 'd', 'a' and 't' themselves
      and their upper-case forms compare equal to them when case is ignored. */
  predicate EndsWithExtension(name: string)
  {
    |name| >= |EXTENSION| && name[|name| - 4] == '.' &&
    (name[|name| - 3] == 'd' || name[|name| - 3] == 'D') &&
    (name[|name| - 2] == 'a' || name[|name| - 2] == 'A') &&
    (name[|name| - 1] == 't' || name[|name| - 1] == 'T')
  }

  /** `s.Replace(c, '_')`. */
  function ReplaceChar(s: string, c: char): (r: string)
  {
    seq(|s|, i requires 0 <= i < |s| => if s[i] == c then PLACEHOLDER else s[i])
  }

  /** The loop that replaces each invalid character in turn, in the order the platform lists them. */
  function ReplaceInvalid(s: string, invalid: seq<char>): (r: string)
    ensures |r| == |s|
    ensures forall i {:trigger r[i]} :: 0 <= i < |s| ==> r[i] == Cleaned(s[i], invalid)
    decreases |invalid|
  {
    if invalid == [] then s
    else
      var r := ReplaceInvalid(ReplaceChar(s, invalid[0]), invalid[1..]);
      assert invalid == [invalid[0]] + invalid[1..];
      r
  }

  /** Path.GetExtension: from the last '.' to the end, searching back from the end and stopping
      at a directory separator; empty when there is no such '.' or it is the last character. */
  function GetExtension(path: string): (ext: string)
    ensures |ext| <= |path|
  {
    ExtensionBefore(path, |path|)
  }

  /** The search of GetExtension over the first `i` characters of `path`. */
  function ExtensionBefore(path: string, i: nat): (ext: string)
    requires i <= |path|
    ensures |ext| <= |path|
    decreases i
  {
    if i == 0 then ""
    else if path[i - 1] == '.' then (if i == |path| then "" else path[i - 1..])
    else if path[i - 1] == '/' || path[i - 1] == '\\' then ""
    else ExtensionBefore(path, i - 1)
  }

  /** The extension is a suffix of the path, and when there is one it is a '.' followed by at
      least one character. */
  lemma {:induction false} ExtensionIsSuffix(path: string, i: nat)
    requires i <= |path|
    ensures var ext := ExtensionBefore(path, i);
      ext == path[|path| - |ext|..] && (ext != [] ==> ext[0] == '.' && |ext| >= 2)
    decreases i
  {
    if 0 < i && path[i - 1] != '.' && path[i - 1] != '/' && path[i - 1] != '\\' {
      ExtensionIsSuffix(path, i - 1);
    }
  }

  /** The search steps over a character that is neither '.' nor a directory separator. */
  lemma ExtensionSkips(path: string, i: nat)
    requires 0 < i <= |path|
    requires path[i - 1] != '.' && path[i - 1] != '/' && path[i - 1] != '\\'
    ensures ExtensionBefore(path, i) == ExtensionBefore(path, i - 1)
  {
  }

  /** A name ending in ".dat" in any case has exactly that four-character extension. */
  lemma ExtensionOfDatName(path: string)
    requires EndsWithExtension(path)
    ensures GetExtension(path) == path[|path| - 4..]
  {
    var n := |path|;
    ExtensionSkips(path, n);
    ExtensionSkips(path, n - 1);
    ExtensionSkips(path, n - 2);
    assert ExtensionBefore(path, n - 3) == path[n - 4..];
  }

  /** The name to sanitize: the given one, or the timestamped default when none is given. */
  function Named(filename: string, timestamp: string): string
  {
    if filename == [] then DEFAULT_PREFIX + timestamp + EXTENSION else filename
  }

  /** The name with ".dat" appended unless it already ends in it, in any case. */
  function WithExtension(name: string): string
  {
    if EndsWithExtension(name) then name else name + EXTENSION
  }

  /** The name cut to MAX_FILENAME_LENGTH characters, keeping its extension at the end. */
  function Truncated(name: string): string
    requires EndsWithExtension(name)
  {
    if |name| > MAX_FILENAME_LENGTH then
      ExtensionOfDatName(name);
      var ext := GetExtension(name);
      name[..MAX_FILENAME_LENGTH - |ext|] + ext
    else name
  }

  /** ValidateAndSanitizeFilename; `filename == []` also stands for a null name, and
      `timestamp` is the clock read as yyyyMMdd_HHmmss. */
  function Sanitize(filename: string, timestamp: string, invalid: seq<char>): (r: string)
    ensures EndsWithExtension(r)
    ensures 0 < |r| <= MAX_FILENAME_LENGTH
  {
    var extended := WithExtension(ReplaceInvalid(Named(filename, timestamp), invalid));
    TruncatedShape(extended);
    Truncated(extended)
  }

  /** A given name is cleaned, extended and cut, in that order. */
  lemma SanitizeUnfolds(filename: string, timestamp: string, invalid: seq<char>)
    requires filename != []
    ensures Sanitize(filename, timestamp, invalid) == Truncated(WithExtension(ReplaceInvalid(filename, invalid)))
  {
  }

  /** On a platform whose invalid characters leave ".dat" and '_' alone, the sanitized name
      is well-formed: no invalid character survives and truncation brings none back. */
  lemma SanitizeWellFormed(filename: string, timestamp: string, invalid: seq<char>)
    requires KeepsExtensionChars(invalid)
    ensures WellFormedName(Sanitize(filename, timestamp, invalid), invalid)
  {
    var extended := WithExtension(ReplaceInvalid(Named(filename, timestamp), invalid));
    CleanedWithExtension(Named(filename, timestamp), invalid);
    TruncatedKeepsValid(extended, invalid);
    assert Sanitize(filename, timestamp, invalid) == Truncated(extended);
  }

  /** Truncation only keeps characters of the name, so it brings back no invalid one. */
  lemma TruncatedKeepsValid(name: string, invalid: seq<char>)
    requires EndsWithExtension(name)
    requires forall i :: 0 <= i < |name| ==> name[i] !in invalid
    ensures forall i :: 0 <= i < |Truncated(name)| ==> Truncated(name)[i] !in invalid
  {
    var t := Truncated(name);
    TruncatedShape(name);
    if |name| > MAX_FILENAME_LENGTH {
      forall i | 0 <= i < |t| ensures t[i] !in invalid {
        if i < MAX_FILENAME_LENGTH - 4 {
          assert t[i] == name[i];
        } else {
          assert t[i] == name[|name| - MAX_FILENAME_LENGTH + i];
        }
      }
    }
  }

  /** Replacing leaves no invalid character, and appending ".dat" adds none. */
  lemma CleanedWithExtension(name: string, invalid: seq<char>)
    ensures var e := WithExtension(ReplaceInvalid(name, invalid));
      KeepsExtensionChars(invalid) ==> forall i :: 0 <= i < |e| ==> e[i] !in invalid
  {
    var replaced := ReplaceInvalid(name, invalid);
    var e := WithExtension(replaced);
    forall i | 0 <= i < |e| && KeepsExtensionChars(invalid) ensures e[i] !in invalid {
      if i < |replaced| {
        assert e[i] == replaced[i];
      } else {
        assert e[i] == EXTENSION[i - |replaced|];
      }
    }
  }

  /** Truncation keeps the first 196 characters and the last four, and nothing else. */
  lemma TruncatedShape(name: string)
    requires EndsWithExtension(name)
    ensures var t := Truncated(name);
      EndsWithExtension(t) && |t| <= MAX_FILENAME_LENGTH &&
      (|name| <= MAX_FILENAME_LENGTH ==> t == name) &&
      (|name| > MAX_FILENAME_LENGTH ==>
        |t| == MAX_FILENAME_LENGTH && t == name[..MAX_FILENAME_LENGTH - 4] + name[|name| - 4..])
  {
    if |name| > MAX_FILENAME_LENGTH {
      ExtensionOfDatName(name);
    }
  }

  /** Sanitize leaves a well-formed name untouched, so a name is a fixed point of Sanitize
      exactly when it is well-formed. */
  lemma SanitizeFixedPoints(name: string, timestamp: string, invalid: seq<char>)
    requires KeepsExtensionChars(invalid)
    ensures Sanitize(name, timestamp, invalid) == name <==> WellFormedName(name, invalid)
  {
    SanitizeWellFormed(name, timestamp, invalid);
    if WellFormedName(name, invalid) {
      var replaced := ReplaceInvalid(name, invalid);
      assert replaced == name;
    }
  }

  /** A second pass finds nothing to replace, append or truncate, whatever the clock reads then. */
  lemma SanitizeIdempotent(filename: string, timestamp: string, later: string, invalid: seq<char>)
    requires KeepsExtensionChars(invalid)
    ensures Sanitize(Sanitize(filename, timestamp, invalid), later, invalid) == Sanitize(filename, timestamp, invalid)
  {
    SanitizeWellFormed(filename, timestamp, invalid);
    SanitizeFixedPoints(Sanitize(filename, timestamp, invalid), later, invalid);
  }

  /** Up to the truncation point, a given name keeps every character, invalid ones replaced. */
  lemma SanitizeKeepsPrefix(filename: string, timestamp: string, invalid: seq<char>)
    requires filename != []
    ensures var r := Sanitize(filename, timestamp, invalid);
      forall i :: 0 <= i < |filename| && i < MAX_FILENAME_LENGTH - |EXTENSION| ==> r[i] == Cleaned(filename[i], invalid)
  {
    var replaced := ReplaceInvalid(filename, invalid);
    var extended := WithExtension(replaced);
    var r := Sanitize(filename, timestamp, invalid);
    assert r == Truncated(extended);
    TruncatedShape(extended);
    forall i | 0 <= i < |filename| && i < MAX_FILENAME_LENGTH - |EXTENSION|
      ensures r[i] == Cleaned(filename[i], invalid)
    {
      assert extended[i] == replaced[i];
      assert r[i] == extended[i];
    }
  }

  /** A short name is only cleaned, and gets ".dat" appended unless it already ends in it. */
  lemma SanitizeShortName(filename: string, timestamp: string, invalid: seq<char>)
    requires 0 < |filename| <= MAX_FILENAME_LENGTH - |EXTENSION|
    ensures Sanitize(filename, timestamp, invalid) == WithExtension(ReplaceInvalid(filename, invalid))
  {
    TruncatedShape(WithExtension(ReplaceInvalid(filename, invalid)));
  }

  /** A cleaned name ends in ".dat" only if the given name already did, in the same case:
      the placeholder is none of '.', 'd', 'a', 't' in either case. */
  lemma ExtensionNeverReplaced(filename: string, invalid: seq<char>)
    requires EndsWithExtension(ReplaceInvalid(filename, invalid))
    ensures var r := ReplaceInvalid(filename, invalid);
      forall i :: |filename| - 4 <= i < |filename| ==> r[i] == filename[i]
  {
    var replaced := ReplaceInvalid(filename, invalid);
    var n := |filename|;
    forall i | n - 4 <= i < n ensures replaced[i] == filename[i] {
      assert replaced[i] == Cleaned(filename[i], invalid);
    }
  }

  /** An over-long name is cut to exactly 200 characters, its first 196 characters cleaned. */
  lemma SanitizeTruncatesLongName(filename: string, timestamp: string, invalid: seq<char>)
    requires |filename| > MAX_FILENAME_LENGTH
    ensures |Sanitize(filename, timestamp, invalid)| == MAX_FILENAME_LENGTH
    ensures forall i :: 0 <= i < MAX_FILENAME_LENGTH - |EXTENSION| ==>
      Sanitize(filename, timestamp, invalid)[i] == Cleaned(filename[i], invalid)
  {
    var extended := WithExtension(ReplaceInvalid(filename, invalid));
    assert Sanitize(filename, timestamp, invalid) == Truncated(extended);
    TruncatedShape(extended);
    SanitizeKeepsPrefix(filename, timestamp, invalid);
  }

  /** The last four characters of an over-long name, once ".dat" is added where missing and
      it is cut, are its own last four, or ".dat" when it did not end in it. */
  lemma TruncatedTail(name: string)
    requires |name| > MAX_FILENAME_LENGTH
    ensures var t := Truncated(WithExtension(name));
      forall i :: MAX_FILENAME_LENGTH - 4 <= i < MAX_FILENAME_LENGTH ==>
        t[i] == if EndsWithExtension(name) then name[|name| - MAX_FILENAME_LENGTH + i]
                else EXTENSION[i - (MAX_FILENAME_LENGTH - 4)]
  {
    var extended := WithExtension(name);
    TruncatedShape(extended);
  }

  /** The last four characters of a truncated name are its own ".dat" in its original case,
      or ".dat" when it had none. */
  lemma SanitizeLongNameExtension(filename: string, timestamp: string, invalid: seq<char>)
    requires |filename| > MAX_FILENAME_LENGTH
    ensures var r := Sanitize(filename, timestamp, invalid);
      forall i :: MAX_FILENAME_LENGTH - 4 <= i < MAX_FILENAME_LENGTH ==>
        r[i] == if EndsWithExtension(ReplaceInvalid(filename, invalid))
                then filename[|filename| - MAX_FILENAME_LENGTH + i]
                else EXTENSION[i - (MAX_FILENAME_LENGTH - 4)]
  {
    var replaced := ReplaceInvalid(filename, invalid);
    SanitizeUnfolds(filename, timestamp, invalid);
    TruncatedTail(replaced);
    if EndsWithExtension(replaced) {
      ExtensionNeverReplaced(filename, invalid);
    }
  }

  /** With no name given, the file is called "speech_<timestamp>.dat" (cleaned). */
  lemma SanitizeDefaultName(timestamp: string, invalid: seq<char>)
    requires KeepsExtensionChars(invalid)
    requires |DEFAULT_PREFIX| + |timestamp| + |EXTENSION| <= MAX_FILENAME_LENGTH
    ensures Sanitize("", timestamp, invalid) == ReplaceInvalid(DEFAULT_PREFIX + timestamp, invalid) + EXTENSION
  {
    var base := DEFAULT_PREFIX + timestamp;
    var replaced := ReplaceInvalid(base + EXTENSION, invalid);
    var expected := ReplaceInvalid(base, invalid) + EXTENSION;
    forall i | 0 <= i < |replaced| ensures replaced[i] == expected[i] {
      if i < |base| {
        assert (base + EXTENSION)[i] == base[i];
      } else {
        assert (base + EXTENSION)[i] == EXTENSION[i - |base|];
      }
    }
    assert replaced == expected;
    assert EndsWithExtension(expected);
    TruncatedShape(expected);
  }

  /** The invalid-character lists of both platform families keep the placeholder and ".dat". */
  lemma PlatformListsKeepExtension()
    ensures KeepsExtensionChars(UNIX_INVALID_CHARS)
    ensures KeepsExtensionChars(WINDOWS_INVALID_CHARS)
  {
    var controls := seq(32, i requires 0 <= i < 32 => i as char);
    assert forall c :: c in controls ==> c < ' ';
  }
}
