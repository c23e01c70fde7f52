/**
 * Model of the two pure helpers of the file preview panel: the CSS language class
 * chosen from a file name, and the pretty-printing of content that looks like JSON.
 * `JSON.parse` and `JSON.stringify(_, null, 2)` are parameters of the model.
 */
module FilePreview {
  import opened Wrappers
  import opened Strings

  /** Extensions (after lowercasing) highlighted as TypeScript. */
  const TypeScriptExtensions: set<string> := {"js", "jsx", "ts", "tsx"}

  /** Every class `GetLanguageClass` can return. */
  const LanguageClasses: set<string> :=
    {"language-typescript", "language-json", "language-html",
     "language-css", "language-markdown", "language-plaintext"}

  /*
   * Language class
   */

  /**
   * `toLowerCase` on one character, for the characters whose lower case is ASCII:
   * 'A'..'Z' and the Kelvin sign U+212A, which lowers to 'k'.
   */
  function LowerChar(c: char): char
  {
    if 'A' <= c <= 'Z' then (c as int + 32) as char
    else if c == '\U{212A}' then 'k'
    else c
  }

  /** `String.prototype.toLowerCase`, character by character. */
  function ToLowerCase(s: string): (r: string)
    ensures |r| == |s|
    ensures forall k :: 0 <= k < |s| ==> r[k] == LowerChar(s[k])
  {
    if s == [] then [] else [LowerChar(s[0])] + ToLowerCase(s[1..])
  }

  /** `fileName.split('.').pop()`: the text after the last '.', the whole name when there is none. */
  function Extension(fileName: string): (r: string)
    ensures '.' !in r && |r| <= |fileName| && r == fileName[|fileName| - |r|..]
    ensures |r| < |fileName| ==> fileName[|fileName| - |r| - 1] == '.'
  {
    AfterLast(fileName, '.')
  }

  /** The `switch` of `getLanguageClass`, on an already lowercased extension. */
  function ClassOfExtension(ext: string): (r: string)
    ensures r in LanguageClasses
  {
    if ext in TypeScriptExtensions then "language-typescript"
    else if ext == "json" then "language-json"
    else if ext == "html" then "language-html"
    else if ext == "css" then "language-css"
    else if ext == "md" then "language-markdown"
    else "language-plaintext"
  }

  /** `getLanguageClass`: the highlighting class for a file name. */
  function GetLanguageClass(fileName: string): (r: string)
    ensures r in LanguageClasses
  {
    ClassOfExtension(ToLowerCase(Extension(fileName)))
  }

  /** Lowercasing twice is lowercasing once. */
  lemma ToLowerCaseIdempotent(s: string)
    ensures ToLowerCase(ToLowerCase(s)) == ToLowerCase(s)
  {
  }

  /** Lowercasing a suffix is taking the suffix of the lowercased text. */
  lemma {:induction false} LowerCaseOfSuffix(s: string, i: nat)
    requires i <= |s|
    ensures ToLowerCase(s[i..]) == ToLowerCase(s)[i..]
  {
    var suffix := s[i..];
    var whole := ToLowerCase(s);
    var a, b := ToLowerCase(suffix), whole[i..];
    assert |a| == |b|;
    forall k | 0 <= k < |a| ensures a[k] == b[k] {
      calc {
        a[k];
        LowerChar(suffix[k]);
        { assert suffix[k] == s[i + k]; }
        LowerChar(s[i + k]);
        whole[i + k];
      }
    }
  }

  /** Lowercasing neither creates nor removes a '.'. */
  lemma LowerCaseKeepsDots(s: string)
    ensures forall k :: 0 <= k < |s| ==> (ToLowerCase(s)[k] == '.' <==> s[k] == '.')
  {
  }

  /** Lowercasing commutes with taking the extension. */
  lemma {:induction false} ExtensionOfLowerCase(fileName: string)
    ensures Extension(ToLowerCase(fileName)) == ToLowerCase(Extension(fileName))
  {
    var lower := ToLowerCase(fileName);
    var ext := Extension(fileName);
    var i := |fileName| - |ext|;
    var t := ToLowerCase(ext);
    LowerCaseOfSuffix(fileName, i);
    assert fileName[i..] == ext;
    assert lower[|lower| - |t|..] == t;
    LowerCaseKeepsDots(fileName);
    LowerCaseKeepsDots(ext);
    assert '.' !in t;
    AfterLastUnique(lower, '.', t);
  }

  /** The class does not depend on the case of the name: `App.TSX` is classed like `app.tsx`. */
  lemma {:induction false} LanguageClassIgnoresCase(fileName: string)
    ensures GetLanguageClass(ToLowerCase(fileName)) == GetLanguageClass(fileName)
  {
    ExtensionOfLowerCase(fileName);
    ToLowerCaseIdempotent(Extension(fileName));
    assert ToLowerCase(Extension(ToLowerCase(fileName))) == ToLowerCase(Extension(fileName));
  }

  /**
   * Only the text after the last '.' decides the class, and a name without a '.' is
   * its own extension: `archive.tar.md` is classed like `md`, and so is a file named `md`.
   */
  lemma {:induction false} LastExtensionDecides(stem: string, ext: string)
    requires '.' !in ext
    ensures GetLanguageClass(stem + "." + ext) == GetLanguageClass(ext)
  {
    AfterLastOfJoin(stem, '.', ext);
    AfterLastUnique(ext, '.', ext);
    assert Extension(stem + "." + ext) == Extension(ext);
  }

  /** `App.TSX` is highlighted as TypeScript: the extension is lowercased before the switch. */
  lemma UpperCaseTsxIsTypeScript()
    ensures GetLanguageClass("App.TSX") == "language-typescript"
  {
    AfterLastOfJoin("App", '.', "TSX");
    var lower := ToLowerCase("TSX");
    assert lower[0] == 't' && lower[1] == 's' && lower[2] == 'x';
    assert lower == "tsx";
  }

  /** A name without any '.' is its own extension. */
  lemma {:induction false} NoDotIsOwnExtension(name: string)
    requires '.' !in name
    ensures Extension(name) == name
  {
    AfterLastUnique(name, '.', name);
  }

  /** A file named `json`, without any '.', is its own extension. */
  lemma BareJsonIsJson()
    ensures GetLanguageClass("json") == "language-json"
  {
    NoDotIsOwnExtension("json");
    var lower := ToLowerCase("json");
    assert lower[0] == 'j' && lower[1] == 's' && lower[2] == 'o' && lower[3] == 'n';
    assert lower == "json";
    assert ClassOfExtension("json") == "language-json" by {
      assert "json" !in TypeScriptExtensions;
    }
  }

  /** A name ending in '.' has an empty extension and is plain text. */
  lemma TrailingDotIsPlaintext(stem: string)
    ensures GetLanguageClass(stem + ".") == "language-plaintext"
  {
    AfterLastOfJoin(stem, '.', "");
    assert stem + "." + "" == stem + ".";
  }

  /*
   * Content formatting
   */

  /** The characters `String.prototype.trim` removes: ECMAScript WhiteSpace and LineTerminator. */
  predicate IsJsWhitespace(c: char)
  {
    || c == '\t' || c == '\n' || c == '\U{000B}' || c == '\U{000C}' || c == '\r' || c == ' '
    || c == '\U{00A0}' || c == '\U{1680}' || ('\U{2000}' <= c <= '\U{200A}')
    || c == '\U{2028}' || c == '\U{2029}' || c == '\U{202F}' || c == '\U{205F}'
    || c == '\U{3000}' || c == '\U{FEFF}'
  }

  /** `s` with its leading whitespace removed. */
  function TrimStart(s: string): (r: string)
    ensures |r| <= |s| && r == s[|s| - |r|..]
    ensures forall k :: 0 <= k < |s| - |r| ==> IsJsWhitespace(s[k])
    ensures r != [] ==> !IsJsWhitespace(r[0])
  {
    if s != [] && IsJsWhitespace(s[0]) then TrimStart(s[1..]) else s
  }

  /** `s` with its trailing whitespace removed. */
  function TrimEnd(s: string): (r: string)
    ensures |r| <= |s| && r == s[..|r|]
    ensures forall k :: |r| <= k < |s| ==> IsJsWhitespace(s[k])
    ensures r != [] ==> !IsJsWhitespace(r[|r| - 1])
  {
    if s != [] && IsJsWhitespace(s[|s| - 1]) then TrimEnd(s[..|s| - 1]) else s
  }

  /** `String.prototype.trim`. */
  function Trim(s: string): (r: string)
    ensures exists i :: SliceBetweenWhitespace(s, r, i)
    ensures r != [] ==> !IsJsWhitespace(r[0]) && !IsJsWhitespace(r[|r| - 1])
  {
    TrimIsSlice(s);
    TrimEnd(TrimStart(s))
  }

  lemma {:induction false} TrimIsSlice(s: string)
    ensures SliceBetweenWhitespace(s, TrimEnd(TrimStart(s)), |s| - |TrimStart(s)|)
  {
    SliceOfSlice(s, TrimStart(s), TrimEnd(TrimStart(s)));
  }

  /** A prefix `r` of a suffix `front` of `s`, with whitespace cut off on both sides, lies between whitespace in `s`. */
  lemma {:induction false} SliceOfSlice(s: string, front: string, r: string)
    requires |front| <= |s| && front == s[|s| - |front|..]
    requires forall k :: 0 <= k < |s| - |front| ==> IsJsWhitespace(s[k])
    requires |r| <= |front| && r == front[..|r|]
    requires forall k :: |r| <= k < |front| ==> IsJsWhitespace(front[k])
    ensures SliceBetweenWhitespace(s, r, |s| - |front|)
  {
    var i := |s| - |front|;
    assert s[i..][..|r|] == s[i..i + |r|];
    forall k | i + |r| <= k < |s| ensures IsJsWhitespace(s[k]) {
      assert s[k] == front[k - i];
    }
  }

  /** `r` is the slice of `s` starting at `i`, and everything of `s` around it is whitespace. */
  predicate SliceBetweenWhitespace(s: string, r: string, i: int)
  {
    && 0 <= i <= |s| - |r|
    && r == s[i..i + |r|]
    && (forall k :: 0 <= k < i ==> IsJsWhitespace(s[k]))
    && (forall k :: i + |r| <= k < |s| ==> IsJsWhitespace(s[k]))
  }

  /** `s.startsWith(c)` for a one-character string `c`. */
  predicate StartsWith(s: string, c: char)
  {
    s != [] && s[0] == c
  }

  /** The first character of `s` that is not whitespace is `c`. */
  predicate FirstNonSpaceIs(s: string, c: char)
  {
    exists i :: 0 <= i < |s| && s[i] == c && forall k :: 0 <= k < i ==> IsJsWhitespace(s[k])
  }

  /** When the first non-whitespace character of `s` is at `j`, trimming the front leaves `s[j..]`. */
  lemma {:induction false} TrimStartAt(s: string, j: nat)
    requires j < |s| && !IsJsWhitespace(s[j])
    requires forall k :: 0 <= k < j ==> IsJsWhitespace(s[k])
    ensures TrimStart(s) == s[j..]
    decreases j
  {
    if j > 0 {
      TrimStartAt(s[1..], j - 1);
      assert s[1..][j - 1..] == s[j..];
    }
  }

  /** Trimming the end keeps a non-whitespace first character. */
  lemma {:induction false} TrimEndKeepsHead(s: string)
    requires s != [] && !IsJsWhitespace(s[0])
    ensures TrimEnd(s) != [] && TrimEnd(s)[0] == s[0]
    decreases |s|
  {
    if IsJsWhitespace(s[|s| - 1]) {
      TrimEndKeepsHead(s[..|s| - 1]);
    }
  }

  /** `s.trim().startsWith(c)` holds exactly when `c` is the first non-whitespace character of `s`. */
  lemma {:induction false} TrimmedStartsWith(s: string, c: char)
    requires !IsJsWhitespace(c)
    ensures StartsWith(Trim(s), c) <==> FirstNonSpaceIs(s, c)
  {
    var front := TrimStart(s);
    var i := |s| - |front|;
    if StartsWith(Trim(s), c) {
      assert front != [] && front[0] == c;
      assert s[i] == c && forall k :: 0 <= k < i ==> IsJsWhitespace(s[k]);
    }
    if FirstNonSpaceIs(s, c) {
      var j :| 0 <= j < |s| && s[j] == c && forall k :: 0 <= k < j ==> IsJsWhitespace(s[k]);
      TrimStartAt(s, j);
      TrimEndKeepsHead(front);
    }
  }

  /** The guard of `formatContent`: the trimmed text starts with '{' or '['. */
  predicate LooksLikeJson(text: string)
  {
    StartsWith(Trim(text), '{') || StartsWith(Trim(text), '[')
  }

  /** The text `formatContent` works on: absent content defaults to the empty string. */
  function TextOf(content: Option<string>): string
  {
    if content.Some? then content.value else ""
  }

  /**
   * `formatContent`: content whose trimmed text starts with '{' or '[' and parses is
   * replaced by its pretty-printed form; anything else is returned unchanged.
   */
  function FormatContent<V>(content: Option<string>, parse: string -> Option<V>, prettyPrint: V -> string): (r: string)
    ensures r == TextOf(content)
      || (parse(TextOf(content)).Some? && r == prettyPrint(parse(TextOf(content)).value))
  {
    var text := TextOf(content);
    if LooksLikeJson(text) then
      match parse(text)
      case Some(v) => prettyPrint(v)
      case None => text
    else text
  }

  /**
   * When `formatContent` leaves content alone: absent content yields "", content whose
   * first non-whitespace character is neither '{' nor '[' comes back unchanged, and so
   * does content that does not parse; any other result is the pretty-printed parse.
   */
  lemma FormatContentPassThrough<V>(content: Option<string>, parse: string -> Option<V>, prettyPrint: V -> string)
    ensures content.None? ==> FormatContent(content, parse, prettyPrint) == ""
    ensures !FirstNonSpaceIs(TextOf(content), '{') && !FirstNonSpaceIs(TextOf(content), '[') ==>
      FormatContent(content, parse, prettyPrint) == TextOf(content)
    ensures parse(TextOf(content)).None? ==> FormatContent(content, parse, prettyPrint) == TextOf(content)
    ensures ((FirstNonSpaceIs(TextOf(content), '{') || FirstNonSpaceIs(TextOf(content), '['))
             && parse(TextOf(content)).Some?) ==>
      FormatContent(content, parse, prettyPrint) == prettyPrint(parse(TextOf(content)).value)
    ensures FormatContent(content, parse, prettyPrint) != TextOf(content) ==>
      && (FirstNonSpaceIs(TextOf(content), '{') || FirstNonSpaceIs(TextOf(content), '['))
      && parse(TextOf(content)).Some?
      && FormatContent(content, parse, prettyPrint) == prettyPrint(parse(TextOf(content)).value)
  {
    TrimmedStartsWith(TextOf(content), '{');
    TrimmedStartsWith(TextOf(content), '[');
  }

  /**
   * Formatting is idempotent, provided pretty-printed text parses again to a value that
   * prints the same way (it need not be the same value: `[1e400]` parses to `[Infinity]`,
   * which prints with `null` in its place), and pretty-printing an object or array again yields text
   * starting with a bracket.
   */
  lemma FormatContentIdempotent<V>(content: Option<string>, parse: string -> Option<V>, prettyPrint: V -> string)
    requires forall v :: parse(prettyPrint(v)).Some? && prettyPrint(parse(prettyPrint(v)).value) == prettyPrint(v)
    requires forall t :: LooksLikeJson(t) && parse(t).Some? ==> LooksLikeJson(prettyPrint(parse(t).value))
    ensures var once := FormatContent(content, parse, prettyPrint);
      FormatContent(Some(once), parse, prettyPrint) == once
  {
    var text := TextOf(content);
    if LooksLikeJson(text) {
      match parse(text)
      case Some(v) =>
        assert LooksLikeJson(prettyPrint(v));
        assert parse(prettyPrint(v)).Some?;
      case None =>
    }
  }
}
