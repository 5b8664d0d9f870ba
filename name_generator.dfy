/**
 * The output file name templating engine (NameGenerator), as its unit
 * tests describe it.  A template is scanned for the tokens [BASENAME],
 * [TEXT], [CURRENTPAGE###] and [FILENUMBER###]; the result is stripped of
 * characters file systems refuse, prefixed with "<page>_" when a page
 * number was given but no token used it, given the requested extension,
 * and finally shortened to at most 255 bytes of UTF-8 and 255 characters,
 * keeping the extension.
 */
module NameGenerator {
  import opened Wrappers
  import opened Text

  /** A NameGenerationRequest: the values the tokens are replaced with. */
  datatype NameRequest = NameRequest(
    extension: string,
    originalName: string,
    page: Option<nat>,
    fileNumber: Option<nat>,
    text: Option<string>)

  /** nameRequest(): a request for a PDF name with nothing filled in. */
  function DefaultRequest(): NameRequest
  {
    NameRequest("pdf", "", None, None, None)
  }

  /** generate(null) raises IllegalArgumentException. */
  datatype NameError = NullRequest

  /** The limit both in characters and in UTF-8 bytes. */
  const MaxNameLength: nat := 255

  // ---------------------------------------------------------------------
  // Tokens

  datatype Token = BaseNameToken | TextToken | CurrentPageToken(width: nat) | FileNumberToken(width: nat)

  const BaseNameTag: string := "[BASENAME]"
  const TextTag: string := "[TEXT]"
  const CurrentPageTag: string := "[CURRENTPAGE"
  const FileNumberTag: string := "[FILENUMBER"

  function Hashes(n: nat): (r: string)
    ensures |r| == n
    ensures forall i :: 0 <= i < n ==> r[i] == '#'
  {
    if n == 0 then [] else ['#'] + Hashes(n - 1)
  }

  /** How a token is written in a template; the padding width is the number of '#'. */
  function TokenText(tok: Token): (r: string)
    ensures |r| >= 6 && r[0] == '['
    ensures forall j :: 1 <= j < |r| ==> r[j] != '['
  {
    match tok
    case BaseNameToken => BaseNameTag
    case TextToken => TextTag
    case CurrentPageToken(w) => CurrentPageTag + Hashes(w) + "]"
    case FileNumberToken(w) => FileNumberTag + Hashes(w) + "]"
  }

  /** Length of the run of '#' at the start of s. */
  function HashRun(s: string): (n: nat)
    ensures n <= |s|
    ensures forall i :: 0 <= i < n ==> s[i] == '#'
    ensures n < |s| ==> s[n] != '#'
  {
    if s != [] && s[0] == '#' then 1 + HashRun(s[1..]) else 0
  }

  /** The padding width when t starts with tag, a run of '#' and ']'. */
  function MatchCounted(tag: string, t: string): (m: Option<nat>)
    ensures m.Some? ==> tag + Hashes(m.value) + "]" <= t
  {
    if tag <= t then
      var rest := t[|tag|..];
      var h := HashRun(rest);
      if h < |rest| && rest[h] == ']' then
        assert t[..|tag| + h + 1] == tag + Hashes(h) + "]";
        Some(h)
      else None
    else None
  }

  /** The token t starts with, if any. */
  function MatchToken(t: string): (m: Option<Token>)
    ensures m.Some? ==> TokenText(m.value) <= t
    ensures m.Some? ==> t != [] && t[0] == '['
  {
    if t == [] || t[0] != '[' then None
    else if BaseNameTag <= t then Some(BaseNameToken)
    else if TextTag <= t then Some(TextToken)
    else match MatchCounted(CurrentPageTag, t)
      case Some(w) => Some(CurrentPageToken(w))
      case None =>
        match MatchCounted(FileNumberTag, t)
        case Some(w) => Some(FileNumberToken(w))
        case None => None
  }

  lemma {:induction false} HashRunOfHashes(n: nat, rest: string)
    requires rest == [] || rest[0] != '#'
    ensures HashRun(Hashes(n) + rest) == n
  {
    if n > 0 {
      assert (Hashes(n) + rest)[1..] == Hashes(n - 1) + rest;
      HashRunOfHashes(n - 1, rest);
    } else {
      assert Hashes(n) + rest == rest;
    }
  }

  lemma CountedOfText(tag: string, w: nat, rest: string)
    ensures MatchCounted(tag, tag + Hashes(w) + "]" + rest) == Some(w)
  {
    var t := tag + Hashes(w) + "]" + rest;
    assert t[|tag|..] == Hashes(w) + ("]" + rest);
    HashRunOfHashes(w, "]" + rest);
  }

  /** Scanning a written token finds that token again, whatever follows it. */
  lemma MatchTokenText(tok: Token, rest: string)
    ensures MatchToken(TokenText(tok) + rest) == Some(tok)
  {
    var t := TokenText(tok) + rest;
    match tok
    case BaseNameToken =>
    case TextToken =>
      assert t[1] == 'T';
      assert !(BaseNameTag <= t) by { assert BaseNameTag[1] == 'B'; }
    case CurrentPageToken(w) =>
      assert t[1] == 'C';
      assert !(BaseNameTag <= t) by { assert BaseNameTag[1] == 'B'; }
      assert !(TextTag <= t) by { assert TextTag[1] == 'T'; }
      assert t == CurrentPageTag + Hashes(w) + "]" + rest;
      CountedOfText(CurrentPageTag, w, rest);
    case FileNumberToken(w) =>
      assert t[1] == 'F';
      assert !(BaseNameTag <= t) by { assert BaseNameTag[1] == 'B'; }
      assert !(TextTag <= t) by { assert TextTag[1] == 'T'; }
      assert !(CurrentPageTag <= t) by { assert CurrentPageTag[1] == 'C'; }
      assert t == FileNumberTag + Hashes(w) + "]" + rest;
      CountedOfText(FileNumberTag, w, rest);
  }

  /** Does any token occur in t? */
  predicate HasToken(t: string)
    decreases |t|
  {
    t != [] && (MatchToken(t).Some? || HasToken(t[1..]))
  }

  /** Does a [CURRENTPAGE...] token occur in t? */
  predicate HasPageToken(t: string)
    decreases |t|
  {
    t != [] && ((MatchToken(t).Some? && MatchToken(t).value.CurrentPageToken?) || HasPageToken(t[1..]))
  }

  /** A token written anywhere in t is found. */
  lemma {:induction false} HasTokenOf(a: string, tok: Token, rest: string)
    ensures HasToken(a + TokenText(tok) + rest)
    decreases |a|
  {
    var t := a + TokenText(tok) + rest;
    if a == [] {
      assert t == TokenText(tok) + rest;
      MatchTokenText(tok, rest);
    } else {
      assert t[1..] == a[1..] + TokenText(tok) + rest;
      HasTokenOf(a[1..], tok, rest);
    }
  }

  /** A [CURRENTPAGE...] token written anywhere in t is found. */
  lemma {:induction false} HasPageTokenOf(a: string, width: nat, rest: string)
    ensures HasPageToken(a + TokenText(CurrentPageToken(width)) + rest)
    decreases |a|
  {
    var tok := CurrentPageToken(width);
    var t := a + TokenText(tok) + rest;
    if a == [] {
      assert t == TokenText(tok) + rest;
      MatchTokenText(tok, rest);
    } else {
      assert t[1..] == a[1..] + TokenText(tok) + rest;
      HasPageTokenOf(a[1..], width, rest);
    }
  }

  /** Text without '[' holds no token at all. */
  lemma {:induction false} NoTokenWithoutBracket(t: string)
    requires forall j :: 0 <= j < |t| ==> t[j] != '['
    ensures !HasToken(t) && !HasPageToken(t)
    decreases |t|
  {
    if t != [] {
      NoTokenWithoutBracket(t[1..]);
    }
  }

  // ---------------------------------------------------------------------
  // Substitution

  /** Index of the last '.' in s. */
  function LastDot(s: string): (r: Option<nat>)
    ensures r.Some? ==> r.value < |s| && s[r.value] == '.' && forall j :: r.value < j < |s| ==> s[j] != '.'
    ensures r.None? ==> forall j :: 0 <= j < |s| ==> s[j] != '.'
  {
    if s == [] then None
    else if s[|s| - 1] == '.' then Some(|s| - 1)
    else LastDot(s[..|s| - 1])
  }

  /** The part of a path after its last '/' or '\'. */
  function FileNameOf(s: string): (r: string)
    ensures forall j :: 0 <= j < |r| ==> r[j] != '/' && r[j] != '\\'
    ensures |r| <= |s| && r == s[|s| - |r|..]
  {
    if s == [] then []
    else if s[|s| - 1] == '/' || s[|s| - 1] == '\\' then []
    else FileNameOf(s[..|s| - 1]) + [s[|s| - 1]]
  }

  /** FilenameUtils.getBaseName: the file name without directories and extension. */
  function BaseName(originalName: string): (r: string)
    ensures forall j :: 0 <= j < |r| ==> r[j] != '/' && r[j] != '\\'
  {
    var name := FileNameOf(originalName);
    match LastDot(name)
    case Some(i) => name[..i]
    case None => name
  }

  /** A plain file name, without directories or extension, is its own base name. */
  lemma {:induction false} BaseNameOfPlain(s: string)
    requires forall j :: 0 <= j < |s| ==> s[j] != '/' && s[j] != '\\' && s[j] != '.'
    ensures BaseName(s) == s
    decreases |s|
  {
    if s != [] {
      BaseNameOfPlain(s[..|s| - 1]);
      assert s == s[..|s| - 1] + [s[|s| - 1]];
    }
  }

  /** The value a token is replaced with; None leaves the token as written. */
  function TokenValue(tok: Token, req: NameRequest): Option<string>
  {
    match tok
    case BaseNameToken => Some(BaseName(req.originalName))
    case TextToken => req.text
    case CurrentPageToken(w) => if req.page.Some? then Some(ZeroPad(req.page.value, w)) else None
    case FileNumberToken(w) => if req.fileNumber.Some? then Some(ZeroPad(req.fileNumber.value, w)) else None
  }

  /** Replace every token that has a value, left to right; anything else is copied. */
  function Substitute(t: string, req: NameRequest): string
    decreases |t|
  {
    if t == [] then []
    else
      var m := MatchToken(t);
      if m.Some? && TokenValue(m.value, req).Some? then
        TokenValue(m.value, req).value + Substitute(t[|TokenText(m.value)|..], req)
      else [t[0]] + Substitute(t[1..], req)
  }

  /** Text without any token is copied unchanged. */
  lemma {:induction false} SubstituteNoToken(t: string, req: NameRequest)
    requires !HasToken(t)
    ensures Substitute(t, req) == t
    decreases |t|
  {
    if t != [] {
      SubstituteNoToken(t[1..], req);
    }
  }

  /** Text without '[' is copied unchanged and scanning resumes after it. */
  lemma {:induction false} SubstitutePlainPrefix(a: string, rest: string, req: NameRequest)
    requires forall j :: 0 <= j < |a| ==> a[j] != '['
    ensures Substitute(a + rest, req) == a + Substitute(rest, req)
    decreases |a|
  {
    if a == [] {
      assert a + rest == rest;
    } else {
      var t := a + rest;
      assert t[0] == a[0];
      assert t[1..] == a[1..] + rest;
      SubstitutePlainPrefix(a[1..], rest, req);
    }
  }

  /** A token with a value is replaced by that value. */
  lemma SubstituteToken(tok: Token, rest: string, req: NameRequest)
    requires TokenValue(tok, req).Some?
    ensures Substitute(TokenText(tok) + rest, req) == TokenValue(tok, req).value + Substitute(rest, req)
  {
    MatchTokenText(tok, rest);
    var t := TokenText(tok) + rest;
    assert t[|TokenText(tok)|..] == rest;
  }

  lemma ConcatAssoc(a: string, b: string, c: string)
    ensures a + (b + c) == (a + b) + c
  {
  }

  /** Where no token with a value starts, one character is copied as written. */
  lemma SubstituteCopiesOne(t: string, req: NameRequest)
    requires t != []
    requires MatchToken(t).None? || TokenValue(MatchToken(t).value, req).None?
    ensures Substitute(t, req) == [t[0]] + Substitute(t[1..], req)
  {
  }

  /** A token without a value (no page, no file number, no text) stays as written. */
  lemma SubstituteTokenVerbatim(tok: Token, rest: string, req: NameRequest)
    requires TokenValue(tok, req).None?
    ensures Substitute(TokenText(tok) + rest, req) == TokenText(tok) + Substitute(rest, req)
  {
    var text := TokenText(tok);
    var t := text + rest;
    var tail := text[1..];
    MatchTokenText(tok, rest);
    SubstituteCopiesOne(t, req);
    assert t[1..] == tail + rest;
    SubstitutePlainPrefix(tail, rest, req);
    assert text == [t[0]] + tail;
    ConcatAssoc([t[0]], tail, Substitute(rest, req));
  }

  // ---------------------------------------------------------------------
  // Sanitising

  /** Characters stripped from generated names. */
  predicate IsIllegal(c: char)
  {
    c == '\\' || c == '/' || c == ':' || c == '*' || c == '?' || c == '"' || c == '<' || c == '>' || c == '|'
    || c == '\0' || c == '\t' || c == '\n' || c == '\r' || c == '\U{C}'
  }

  predicate IsLegalName(s: string)
  {
    forall j :: 0 <= j < |s| ==> !IsIllegal(s[j])
  }

  /** Remove illegal characters (they are stripped, not replaced). */
  function Sanitize(s: string): (r: string)
    ensures IsLegalName(r)
    ensures |r| <= |s|
  {
    if s == [] then []
    else if IsIllegal(s[0]) then Sanitize(s[1..])
    else [s[0]] + Sanitize(s[1..])
  }

  /** Sanitising works piece by piece. */
  lemma {:induction false} SanitizeAppend(a: string, b: string)
    ensures Sanitize(a + b) == Sanitize(a) + Sanitize(b)
  {
    if a == [] {
      assert a + b == b;
    } else {
      assert (a + b)[0] == a[0];
      assert (a + b)[1..] == a[1..] + b;
      SanitizeAppend(a[1..], b);
    }
  }

  /** A name that is already legal is left alone, so sanitising is idempotent. */
  lemma {:induction false} SanitizeLegal(s: string)
    requires IsLegalName(s)
    ensures Sanitize(s) == s
  {
    if s != [] {
      SanitizeLegal(s[1..]);
    }
  }

  /** Stripping an illegal character drops exactly that character. */
  lemma SanitizeStrips(a: string, c: char, b: string)
    requires IsIllegal(c)
    ensures Sanitize(a + [c] + b) == Sanitize(a) + Sanitize(b)
  {
    SanitizeAppend(a + [c], b);
    SanitizeAppend(a, [c]);
    assert Sanitize([c]) == Sanitize([c][1..]);
  }

  lemma DecimalIsLegal(n: nat)
    ensures IsLegalName(Decimal(n) + "_")
  {
    var d := Decimal(n) + "_";
    forall j | 0 <= j < |d| ensures !IsIllegal(d[j]) {
      if j < |Decimal(n)| {
        assert IsDigit(Decimal(n)[j]);
      }
    }
  }

  // ---------------------------------------------------------------------
  // Shortening

  /** Where the extension of s starts: its last '.', or |s| when it has none. */
  function ExtensionStart(s: string): (i: nat)
    ensures i <= |s|
    ensures i < |s| ==> s[i] == '.'
    ensures forall j :: i < j < |s| ==> s[j] != '.'
  {
    match LastDot(s)
    case Some(i) => i
    case None => |s|
  }

  /** The extension of s with its dot, empty when s has no dot. */
  function Extension(s: string): (e: string)
    ensures |e| <= |s| && e == s[|s| - |e|..]
    ensures e == [] || e[0] == '.'
  {
    s[ExtensionStart(s)..]
  }

  lemma {:induction false} LastDotOfExtension(base: string, ext: string)
    requires forall j :: 0 <= j < |ext| ==> ext[j] != '.'
    ensures LastDot(base + "." + ext) == Some(|base|)
    decreases |ext|
  {
    var s := base + "." + ext;
    if ext != [] {
      assert s[..|s| - 1] == base + "." + ext[..|ext| - 1];
      LastDotOfExtension(base, ext[..|ext| - 1]);
    }
  }

  /** A name built as base + "." + ext with a dot-free ext has extension "." + ext. */
  lemma ExtensionOf(base: string, ext: string)
    requires forall j :: 0 <= j < |ext| ==> ext[j] != '.'
    ensures ExtensionStart(base + "." + ext) == |base|
    ensures Extension(base + "." + ext) == "." + ext
  {
    LastDotOfExtension(base, ext);
    var s := base + "." + ext;
    assert s[|base|..] == "." + ext;
  }

  /** shortenFilenameCharLength: at most max characters, cut from the end of
      the base name so that the extension survives. */
  function ShortenChars(s: string, max: nat): (r: string)
    ensures |s| <= max ==> r == s
    ensures |s| > max && |Extension(s)| <= max ==> |r| == max
    ensures |Extension(s)| <= |r| <= |s|
    ensures r == s[..|r| - |Extension(s)|] + Extension(s)
  {
    var i := ExtensionStart(s);
    if |s| <= max then
      assert s == s[..i] + s[i..];
      s
    else
      var keep := if |s| - i <= max then max - (|s| - i) else 0;
      var keep' := if keep <= i then keep else i;
      s[..keep'] + s[i..]
  }

  /** The longest prefix of s that fits in budget bytes of UTF-8. */
  function FitBytes(s: string, budget: nat): (r: string)
    ensures r <= s
    ensures Utf8Length(r) <= budget
    ensures r == s || Utf8Length(s[..|r| + 1]) > budget
  {
    if s == [] || Utf8Width(s[0]) > budget then
      assert s != [] ==> Utf8Length(s[..1]) == Utf8Width(s[0]) + Utf8Length(s[..1][1..]);
      []
    else
      var rest := FitBytes(s[1..], budget - Utf8Width(s[0]));
      var r := [s[0]] + rest;
      assert r[1..] == rest;
      assert rest != s[1..] ==> s[..|r| + 1][1..] == s[1..][..|rest| + 1];
      r
  }

  /** shortenFilenameBytesLength with UTF-8: at most max bytes, cut from the
      end of the base name, never inside a code point, extension kept. */
  function ShortenBytes(s: string, max: nat): (r: string)
    ensures Utf8Length(s) <= max ==> r == s
    ensures Utf8Length(Extension(s)) <= max ==> Utf8Length(r) <= max
    ensures |Extension(s)| <= |r| <= |s|
    ensures r == s[..|r| - |Extension(s)|] + Extension(s)
  {
    var i := ExtensionStart(s);
    var b, e := s[..i], s[i..];
    assert s == b + e;
    if Utf8Length(s) <= max then
      s
    else
      var budget := if Utf8Length(e) <= max then max - Utf8Length(e) else 0;
      var kept := FitBytes(b, budget);
      assert s[..|kept|] == kept;
      Utf8LengthAppend(kept, e);
      kept + e
  }

  /** A prefix that stops short of the whole string misses the budget by less
      than one code point. */
  lemma FitBytesTight(s: string, budget: nat)
    requires FitBytes(s, budget) != s
    ensures budget <= Utf8Length(FitBytes(s, budget)) + 3
  {
    var kept := FitBytes(s, budget);
    var k := |kept|;
    assert s[..k + 1] == kept + [s[k]];
    Utf8LengthAppend(kept, [s[k]]);
    assert Utf8Length([s[k]]) == Utf8Width(s[k]) + Utf8Length([s[k]][1..]);
  }

  /** Shortening by bytes wastes less than one code point: when it cuts, the
      result is within three bytes of the limit. */
  lemma ShortenBytesTight(s: string, max: nat)
    requires Utf8Length(s) > max
    requires Utf8Length(Extension(s)) <= max
    ensures max - 3 <= Utf8Length(ShortenBytes(s, max)) <= max
  {
    var i := ExtensionStart(s);
    var b, e := s[..i], s[i..];
    assert s == b + e;
    var budget := max - Utf8Length(e);
    var kept := FitBytes(b, budget);
    assert ShortenBytes(s, max) == kept + e;
    Utf8LengthAppend(b, e);
    Utf8LengthAppend(kept, e);
    FitBytesTight(b, budget);
  }

  // ---------------------------------------------------------------------
  // Generation

  /** "<page>_" when a page number is given and no [CURRENTPAGE] token uses it. */
  function PagePrefix(template: string, req: NameRequest): string
  {
    if req.page.Some? && !HasPageToken(template) then Decimal(req.page.value) + "_" else ""
  }

  /** Tokens substituted; a template without any token gets the base name appended. */
  function Body(template: string, req: NameRequest): string
  {
    if HasToken(template) then Substitute(template, req) else template + BaseName(req.originalName)
  }

  /** The sanitised name without its extension. */
  function FullName(template: string, req: NameRequest): string
  {
    Sanitize(PagePrefix(template, req) + Body(template, req))
  }

  /** The full name before shortening. */
  function Compose(template: string, req: NameRequest): string
  {
    FullName(template, req) + "." + req.extension
  }

  /** A template without tokens keeps its text, gets the base name appended
      and, when a page number is given, the "<page>_" prefix. */
  lemma PlainTemplate(template: string, req: NameRequest)
    requires forall j :: 0 <= j < |template| ==> template[j] != '['
    ensures Body(template, req) == template + BaseName(req.originalName)
    ensures PagePrefix(template, req) == if req.page.Some? then Decimal(req.page.value) + "_" else ""
  {
    NoTokenWithoutBracket(template);
  }

  /** The extension a request may ask for: no dot, and short enough to leave room. */
  predicate ValidExtension(ext: string)
  {
    && (forall j :: 0 <= j < |ext| ==> ext[j] != '.')
    && Utf8Length(ext) + 1 <= MaxNameLength
  }

  /** r is a prefix of full followed by "." + ext: the extension survived shortening. */
  predicate KeepsExtension(r: string, full: string, ext: string)
  {
    |ext| + 1 <= |r| <= |full| + |ext| + 1 && r == full[..|r| - |ext| - 1] + "." + ext
  }

  /** A cut of full + "." + ext that keeps its extension keeps a prefix of full. */
  lemma CutKeepsExtension(s: string, full: string, ext: string, r: string)
    requires s == full + "." + ext && Extension(s) == "." + ext
    requires |Extension(s)| <= |r| <= |s|
    requires r == s[..|r| - |Extension(s)|] + Extension(s)
    ensures KeepsExtension(r, full, ext)
  {
    assert s[..|r| - |ext| - 1] == full[..|r| - |ext| - 1];
  }

  /** Shortening by bytes a name of the form full + "." + ext keeps the
      extension and a prefix of full. */
  lemma ShortenBytesKeepsExtension(full: string, ext: string, max: nat)
    requires forall j :: 0 <= j < |ext| ==> ext[j] != '.'
    ensures KeepsExtension(ShortenBytes(full + "." + ext, max), full, ext)
  {
    var s := full + "." + ext;
    ExtensionOf(full, ext);
    CutKeepsExtension(s, full, ext, ShortenBytes(s, max));
  }

  /** The same for shortening by characters. */
  lemma ShortenCharsKeepsExtension(full: string, ext: string, max: nat)
    requires forall j :: 0 <= j < |ext| ==> ext[j] != '.'
    ensures KeepsExtension(ShortenChars(full + "." + ext, max), full, ext)
  {
    var s := full + "." + ext;
    ExtensionOf(full, ext);
    CutKeepsExtension(s, full, ext, ShortenChars(s, max));
  }

  lemma Utf8LengthDotExtension(ext: string)
    ensures Utf8Length("." + ext) == 1 + Utf8Length(ext)
  {
    assert ("." + ext)[1..] == ext;
  }

  /** Shortening a name of the form full + "." + ext, first by bytes and then
      by characters, keeps the extension, keeps a prefix of full, and meets
      both limits. */
  lemma ShortenBothKeepsExtension(s: string, full: string, ext: string)
    requires ValidExtension(ext) && s == full + "." + ext
    ensures var r := ShortenChars(ShortenBytes(s, MaxNameLength), MaxNameLength);
      && |r| <= MaxNameLength
      && Utf8Length(r) <= MaxNameLength
      && KeepsExtension(r, full, ext)
  {
    var bytes := ShortenBytes(s, MaxNameLength);
    assert Utf8Length(bytes) <= MaxNameLength by {
      ExtensionOf(full, ext);
      Utf8LengthDotExtension(ext);
    }
    assert KeepsExtension(bytes, full, ext) by {
      ShortenBytesKeepsExtension(full, ext, MaxNameLength);
    }
    Utf8LengthBounds(bytes);
    assert ShortenChars(bytes, MaxNameLength) == bytes;
  }

  /** Once a name fits in 255 bytes it also fits in 255 characters, so the
      second shortening in generate never cuts anything. */
  lemma CharLimitFollowsFromByteLimit(s: string)
    requires Utf8Length(Extension(s)) <= MaxNameLength
    ensures var bytes := ShortenBytes(s, MaxNameLength);
      ShortenChars(bytes, MaxNameLength) == bytes
  {
    Utf8LengthBounds(ShortenBytes(s, MaxNameLength));
  }

  /** NameGenerator.generate for a non-null request. */
  function GenerateName(template: string, req: NameRequest): string
  {
    ShortenChars(ShortenBytes(Compose(template, req), MaxNameLength), MaxNameLength)
  }

  /** Whatever the template and values, a generated name meets both limits,
      ends with the requested extension and starts with the untruncated name. */
  lemma GenerateNameBounded(template: string, req: NameRequest)
    requires ValidExtension(req.extension)
    ensures var r := GenerateName(template, req);
      && |r| <= MaxNameLength
      && Utf8Length(r) <= MaxNameLength
      && KeepsExtension(r, FullName(template, req), req.extension)
  {
    ShortenBothKeepsExtension(Compose(template, req), FullName(template, req), req.extension);
  }

  /** A name that already fits is not shortened. */
  lemma GenerateNameShort(template: string, req: NameRequest)
    requires Utf8Length(Compose(template, req)) <= MaxNameLength
    ensures GenerateName(template, req) == Compose(template, req)
  {
    Utf8LengthBounds(Compose(template, req));
  }

  /** NameGenerator.generate: a null request is refused. */
  function Generate(template: string, request: Option<NameRequest>): (r: Result<string, NameError>)
    ensures r.Failure? <==> request.None?
    ensures r.Success? && ValidExtension(request.value.extension) ==>
      |r.value| <= MaxNameLength && Utf8Length(r.value) <= MaxNameLength
  {
    match request
    case None => Failure(NullRequest)
    case Some(req) =>
      if ValidExtension(req.extension) then
        GenerateNameBounded(template, req);
        Success(GenerateName(template, req))
      else Success(GenerateName(template, req))
  }
}
