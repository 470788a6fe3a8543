/** The pure parts of `MyMultimodel-ImageRecognition.py`: the MIME type sent along with the
    image, and the cleaning of the path the user types in. `mimetypes.guess_type` consults
    the platform's type tables, so its answer comes in as a parameter. Paths follow
    `pathlib`'s POSIX flavour. */
module ImageInput {
  import opened Wrappers
  import opened Text

  // ---- Path(p).name and Path(p).suffix ----

  /** The last component that is neither empty nor ".", or "" when there is none
      (`pathlib` drops empty and "." components, so "a/b/" and "a/./b/." both name "b"). */
  function LastNamed(parts: seq<string>): (name: string)
    ensures name == "" || name in parts
    ensures name != "."
  {
    if parts == [] then ""
    else
      var last := parts[|parts| - 1];
      if last == "" || last == "." then LastNamed(parts[..|parts| - 1]) else last
  }

  /** `Path(path).name`: the final component, never containing a separator. */
  function Name(path: string): (name: string)
    ensures '/' !in name && name != "."
  {
    LastNamed(Split(path, '/'))
  }

  /** `Path(path).suffix` on a name: from the last '.' on, provided that dot neither starts
      nor ends the name; otherwise empty. A suffix is a dot followed by at least one
      character, none of them a dot, and a non-empty stem comes before it. */
  function Suffix(name: string): (ext: string)
    ensures ext == [] || (|ext| >= 2 && ext[0] == '.' && '.' !in ext[1..] &&
                          |ext| < |name| && name[|name| - |ext|..] == ext)
  {
    if '.' !in name then ""
    else
      var i := LastIndexOf(name, '.');
      if 0 < i < |name| - 1 then name[i..] else ""
  }

  // ---- get_mime_type ----

  /** The fallback table, keyed by the lower-cased suffix. */
  const MimeMap: map<string, string> :=
    map[".jpg" := "image/jpeg", ".jpeg" := "image/jpeg", ".png" := "image/png",
        ".gif" := "image/gif", ".webp" := "image/webp", ".bmp" := "image/bmp"]

  /** What the fallback gives for a suffix the table does not list. */
  const DefaultType: string := "image/png"

  const ImageTypes: set<string> := {"image/jpeg", "image/png", "image/gif", "image/webp", "image/bmp"}

  /** `get_mime_type(path)`, where `guess` is what `mimetypes.guess_type(path)` reported.
      A guess is returned unchanged; without one the result is always one of the five image
      types, and the default exactly when the lower-cased suffix is not in the table. */
  function MimeType(guess: Option<string>, path: string): (mime: string)
    ensures guess.Some? ==> mime == guess.value
    ensures guess.None? ==> mime in ImageTypes
    ensures guess.None? && Lower(Suffix(Name(path))) in MimeMap ==> mime == MimeMap[Lower(Suffix(Name(path)))]
    ensures guess.None? && Lower(Suffix(Name(path))) !in MimeMap ==> mime == DefaultType
  {
    match guess
    case Some(t) => t
    case None =>
      var ext := Lower(Suffix(Name(path)));
      if ext in MimeMap then MimeMap[ext] else DefaultType
  }

  // ---- properties of get_mime_type ----

  /** A name with a non-empty stem and a dotted extension has that extension as suffix. */
  lemma SuffixOfDotted(stem: string, e: string)
    requires stem != [] && e != [] && '.' !in e
    ensures Suffix(stem + "." + e) == "." + e
  {
    var name := stem + "." + e;
    assert name[|stem|] == '.';
    assert name[|stem| + 1..] == e;
    LastIndexOfUnique(name, '.', |stem|);
    assert name[|stem|..] == "." + e;
  }

  /** A dot file such as ".bashrc", and a name without a dot, have no suffix. */
  lemma NoSuffix(name: string)
    requires '.' !in name || (name[0] == '.' && '.' !in name[1..])
    ensures Suffix(name) == ""
  {
    if '.' in name {
      assert name[0] in name;
      assert '.' !in name[0 + 1..];
      LastIndexOfUnique(name, '.', 0);
    }
  }

  /** Without a guess, a file with a dot file name or no dot at all is sent as PNG. */
  lemma UnknownSuffixIsPng(path: string)
    requires var name := Name(path); '.' !in name || (name[0] == '.' && '.' !in name[1..])
    ensures MimeType(None, path) == DefaultType
  {
    NoSuffix(Name(path));
    assert Lower("") == "";
  }

  /** A bare file name names itself. */
  lemma NameOfBare(name: string)
    requires name != "" && name != "." && '/' !in name
    ensures Name(name) == name
  {
    assert Split(name, '/') == [name];
  }

  /** The directory part of a path does not affect its name. */
  lemma NameOfFileIn(dir: string, name: string)
    requires name != "" && name != "." && '/' !in name
    ensures Name(dir + "/" + name) == name
  {
    SplitConcat(dir, name, '/');
    assert Split(name, '/') == [name];
    var parts := Split(dir, '/') + [name];
    assert parts[..|parts| - 1] == Split(dir, '/');
  }

  /** A text of lower-case ASCII letters, such as a table suffix after its dot. */
  predicate LowerLetters(s: string) {
    forall i | 0 <= i < |s| :: 'a' <= s[i] <= 'z'
  }

  /** Every key of the table is a dot followed by lower-case letters. */
  lemma TableKeys(ext: string)
    requires ext in MimeMap
    ensures |ext| >= 2 && ext[0] == '.' && LowerLetters(ext[1..])
  {
    if ext == ".jpg" {
    } else if ext == ".jpeg" {
    } else if ext == ".png" {
    } else if ext == ".gif" {
    } else if ext == ".webp" {
    } else {
      assert ext == ".bmp";
    }
  }

  /** Lower-casing leaves a dot followed by lower-case letters unchanged. */
  lemma LowerKeeps(e: string)
    requires LowerLetters(e)
    ensures Lower("." + e) == "." + e
  {
  }

  /** Lower-casing after upper-casing is lower-casing. */
  lemma LowerOfUpper(s: string)
    ensures Lower(Upper(s)) == Lower(s)
  {
    forall i | 0 <= i < |s| ensures Lower(Upper(s))[i] == Lower(s)[i] {
      var c := s[i];
      assert Upper(s)[i] == UpperChar(c);
    }
  }

  /** Upper-casing keeps the dot in front and every character that is not a letter. */
  lemma UpperOfDotted(e: string)
    ensures Upper("." + e) == "." + Upper(e)
    ensures '.' !in e ==> '.' !in Upper(e)
    ensures '/' !in e ==> '/' !in Upper(e)
  {
    var u := Upper(e);
    forall i | 0 <= i < |u| ensures (u[i] == '.' ==> e[i] == '.') && (u[i] == '/' ==> e[i] == '/') {
    }
    assert ("." + e)[0] == '.';
    forall i | 0 <= i < |e| ensures Upper("." + e)[i + 1] == u[i] {
      assert ("." + e)[i + 1] == e[i];
    }
  }

  /** Each suffix of the table gives its listed type. */
  lemma KnownSuffix(stem: string, ext: string)
    requires stem != [] && '/' !in stem && ext in MimeMap
    ensures MimeType(None, stem + ext) == MimeMap[ext]
  {
    TableKeys(ext);
    var e := ext[1..];
    assert ext == "." + e;
    assert '.' !in e && '/' !in e by {
      forall i | 0 <= i < |e| ensures e[i] != '.' && e[i] != '/' {
      }
    }
    var name := stem + "." + e;
    assert '/' !in name;
    assert stem + ext == name;
    NameOfBare(name);
    SuffixOfDotted(stem, e);
    LowerKeeps(e);
    assert Lower(Suffix(Name(name))) == ext;
  }

  /** The fallback ignores the letter case of the suffix: "photo.JPG" is sent as JPEG,
      like "photo.jpg". */
  lemma SuffixCaseIgnored(stem: string, e: string)
    requires stem != [] && '/' !in stem && e != [] && '.' !in e && '/' !in e
    ensures MimeType(None, stem + "." + Upper(e)) == MimeType(None, stem + "." + e)
  {
    var u := Upper(e);
    UpperOfDotted(e);
    var nameU, name := stem + "." + u, stem + "." + e;
    assert '/' !in nameU && '/' !in name;
    NameOfBare(nameU);
    NameOfBare(name);
    SuffixOfDotted(stem, u);
    SuffixOfDotted(stem, e);
    LowerOfUpper("." + e);
  }

  // ---- the path the user enters ----

  /** `input(...).strip().strip('"').strip("'")`: surrounding whitespace goes first, then
      double quotes, then single quotes. The result is a piece of the input that neither
      starts nor ends with a single quote. */
  function CleanPath(s: string): (p: string)
    ensures Contains(s, p)
    ensures p == [] || (p[0] != '\'' && p[|p| - 1] != '\'')
  {
    var trimmed := Strip(s, Whitespace);
    var unquoted := Strip(trimmed, Only('"'));
    var p := Strip(unquoted, Only('\''));
    StripIsInfix(s, Whitespace);
    StripIsInfix(trimmed, Only('"'));
    StripIsInfix(unquoted, Only('\''));
    ContainsTrans(s, trimmed, unquoted);
    ContainsTrans(s, unquoted, p);
    p
  }

  lemma StripIsInfix(s: string, k: CharClass)
    ensures Contains(s, Strip(s, k))
  {
    StripFramed(s, k);
    var lo := SkipStart(s, 0, k);
    assert OccursAt(s, Strip(s, k), lo);
  }

  lemma ContainsTrans(a: string, b: string, c: string)
    requires Contains(a, b) && Contains(b, c)
    ensures Contains(a, c)
  {
    var lo :| 0 <= lo <= |a| - |b| && OccursAt(a, b, lo);
    assert a[lo..lo + |b|] == b;
    ContainsInInfix(a, lo, lo + |b|, c);
  }

  /** The cleaned path, or `None` where the script prints "No path provided." and stops. */
  function ReadImagePath(line: string): (path: Option<string>)
    ensures path.Some? ==> path.value != [] && Contains(line, path.value)
  {
    var p := CleanPath(line);
    if p == [] then None else Some(p)
  }

  /** A blank line is rejected. */
  lemma BlankLineRejected(line: string)
    requires IsBlank(line)
    ensures ReadImagePath(line) == None
  {
    BlankIffStripEmpty(line);
  }

  /** A character that is neither whitespace nor a quote survives cleaning, so a line
      holding one is never rejected. */
  lemma SignificantCharKept(line: string, c: char)
    requires c in line && !IsSpace(c) && c != '"' && c != '\''
    ensures ReadImagePath(line).Some? && c in ReadImagePath(line).value
  {
    var trimmed := Strip(line, Whitespace);
    StripKeeps(line, c, Whitespace);
    var unquoted := Strip(trimmed, Only('"'));
    StripKeeps(trimmed, c, Only('"'));
    StripKeeps(unquoted, c, Only('\''));
  }

  /** A path pasted inside double quotes, with spaces around, comes out as the bare path. */
  lemma DoubleQuotedPath(l: string, p: string, r: string)
    requires IsBlank(l) && IsBlank(r)
    requires p != [] && !IsSpace(p[0]) && !IsSpace(p[|p| - 1])
    requires p[0] !in "\"'" && p[|p| - 1] !in "\"'"
    ensures ReadImagePath(l + "\"" + p + "\"" + r) == Some(p)
  {
    var line := l + "\"" + p + "\"" + r;
    var q := ['"'] + p + ['"'];
    assert Strip(line, Whitespace) == q by {
      assert line == l + q + r;
      StripWrapped(l, q, r, Whitespace);
    }
    assert Strip(q, Only('"')) == p by {
      StripWrapped(['"'], p, ['"'], Only('"'));
    }
    assert Strip(p, Only('\'')) == p by {
      StripUnchanged(p, Only('\''));
    }
  }

  /** The same holds for single quotes. */
  lemma SingleQuotedPath(l: string, p: string, r: string)
    requires IsBlank(l) && IsBlank(r)
    requires p != [] && !IsSpace(p[0]) && !IsSpace(p[|p| - 1])
    requires p[0] !in "\"'" && p[|p| - 1] !in "\"'"
    ensures ReadImagePath(l + "'" + p + "'" + r) == Some(p)
  {
    var line := l + "'" + p + "'" + r;
    var q := ['\''] + p + ['\''];
    assert Strip(line, Whitespace) == q by {
      assert line == l + q + r;
      StripWrapped(l, q, r, Whitespace);
    }
    assert Strip(q, Only('"')) == q by {
      StripUnchanged(q, Only('"'));
    }
    assert Strip(q, Only('\'')) == p by {
      StripWrapped(['\''], p, ['\''], Only('\''));
    }
  }

  /** A line of two double quotes is rejected: stripping them leaves nothing. */
  lemma EmptyQuotesRejected()
    ensures ReadImagePath("\"\"") == None
  {
    StripUnchanged("\"\"", Whitespace);
    StripFramed("\"\"", Only('"'));
  }
}
