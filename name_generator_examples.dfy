/**
 * The cases NameGeneratorTest pins down, derived from the general lemmas
 * of NameGenerator.  Each case is split in three: the page prefix and body
 * the template yields, the sanitised name those give, and the generated
 * name; the literals are passed in as parameters so that the verifier does
 * not evaluate the definitions on them.
 */
module NameGeneratorExamples {
  import opened Wrappers
  import opened Text
  import opened NameGenerator

  /** Once the prefix, body and sanitised name are known and short,
      generation returns the sanitised name with the extension. */
  lemma ShortName(template: string, req: NameRequest, prefix: string, body: string, full: string, name: string)
    requires PagePrefix(template, req) == prefix && Body(template, req) == body
    requires Sanitize(prefix + body) == full && |full| + |req.extension| < 63
    requires name == full + "." + req.extension
    ensures GenerateName(template, req) == name
  {
    Utf8LengthBounds(full + "." + req.extension);
    GenerateNameShort(template, req);
  }

  /** A page token with three '#' pads page 2 to "002". */
  lemma PaddedPage(req: NameRequest)
    requires req.page == Some(2)
    ensures TokenValue(CurrentPageToken(3), req) == Some("002")
  {
    assert ZeroPad(2, 3) == "002" by {
      assert Decimal(2) == "2";
      assert Zeros(2) == "00";
      assert "00" + "2" == "002";
    }
  }

  // Facts about the tests' literals, each checked on its own so that the
  // verifier evaluates the definitions on them once.

  /** The tests' original names have no directory and no extension. */
  lemma TestNamesArePlain(a: string, b: string)
    requires a == "Original" && b == "My file 6-04-2015 $1234-56"
    ensures forall j :: 0 <= j < |a| ==> a[j] != '/' && a[j] != '\\' && a[j] != '.'
    ensures forall j :: 0 <= j < |b| ==> b[j] != '/' && b[j] != '\\' && b[j] != '.'
  {
  }

  /** The text around the tokens holds no '['. */
  lemma TestTextsHaveNoBracket(a: string, b: string)
    requires a == "BLA_" && b == "-"
    ensures forall j :: 0 <= j < |a| ==> a[j] != '['
    ensures forall j :: 0 <= j < |b| ==> b[j] != '['
  {
  }

  /** The names the tests expect hold no character that is stripped. */
  lemma TestNamesAreLegal(a: string, b: string, c: string)
    requires a == "1_BLA_Original" && b == "Invalid_" && c == "99-My file 6-04-2015 $1234-56"
    ensures IsLegalName(a) && IsLegalName(b) && IsLegalName(c)
  {
  }

  // "BLA_", page 1, "Original" -> "1_BLA_Original.pdf"

  lemma SimplePrefixWithPageParts(template: string, req: NameRequest)
    requires template == "BLA_" && req == NameRequest("pdf", "Original", Some(1), None, None)
    ensures PagePrefix(template, req) == "1_"
    ensures Body(template, req) == "BLA_Original"
  {
    TestTextsHaveNoBracket(template, "-");
    TestNamesArePlain(req.originalName, "My file 6-04-2015 $1234-56");
    BaseNameOfPlain(req.originalName);
    PlainTemplate(template, req);
    assert Decimal(1) == "1";
  }

  lemma SimplePrefixWithPageSanitized(prefix: string, body: string, full: string)
    requires prefix == "1_" && body == "BLA_Original" && full == "1_BLA_Original"
    ensures Sanitize(prefix + body) == full && |full| < 60
    ensures "1_BLA_Original.pdf" == full + "." + "pdf"
  {
    assert prefix + body == full;
    TestNamesAreLegal(full, "Invalid_", "99-My file 6-04-2015 $1234-56");
    SanitizeLegal(full);
  }

  /** A template without tokens is a prefix of the base name, and an unused
      page number goes in front of it. */
  lemma SimplePrefixWithPage(template: string, req: NameRequest)
    requires template == "BLA_" && req == NameRequest("pdf", "Original", Some(1), None, None)
    ensures GenerateName(template, req) == "1_BLA_Original.pdf"
  {
    SimplePrefixWithPageParts(template, req);
    SimplePrefixWithPageSanitized("1_", "BLA_Original", "1_BLA_Original");
    ShortName(template, req, "1_", "BLA_Original", "1_BLA_Original", "1_BLA_Original.pdf");
  }

  // "Invalid_\" with nothing filled in -> "Invalid_.pdf"

  lemma InvalidCharactersParts(template: string, req: NameRequest)
    requires template == "Invalid_\\" && req == DefaultRequest()
    ensures PagePrefix(template, req) == ""
    ensures Body(template, req) == "Invalid_\\"
  {
    NoTokenWithoutBracket(template);
    assert BaseName("") == "";
  }

  lemma InvalidCharactersSanitized(prefix: string, body: string, full: string)
    requires prefix == "" && body == "Invalid_\\" && full == "Invalid_"
    ensures Sanitize(prefix + body) == full && |full| < 60
    ensures "Invalid_.pdf" == full + "." + "pdf"
  {
    assert prefix + body == full + ['\\'] + "";
    SanitizeStrips(full, '\\', "");
    TestNamesAreLegal("1_BLA_Original", full, "99-My file 6-04-2015 $1234-56");
    SanitizeLegal(full);
  }

  /** Characters a file system refuses are stripped. */
  lemma InvalidCharacters(template: string, req: NameRequest)
    requires template == "Invalid_\\" && req == DefaultRequest()
    ensures GenerateName(template, req) == "Invalid_.pdf"
  {
    InvalidCharactersParts(template, req);
    InvalidCharactersSanitized("", "Invalid_\\", "Invalid_");
    ShortName(template, req, "", "Invalid_\\", "Invalid_", "Invalid_.pdf");
  }

  // "[CURRENTPAGE]-[BASENAME]", page 99, "My file 6-04-2015 $1234-56"
  //   -> "99-My file 6-04-2015 $1234-56.pdf": a '$' in a value is copied as it is

  /** A page token without '#' prints page 99 as "99". */
  lemma UnpaddedValues(page: Token, base: Token, req: NameRequest)
    requires page == CurrentPageToken(0) && base == BaseNameToken
    requires req == NameRequest("pdf", "My file 6-04-2015 $1234-56", Some(99), None, None)
    ensures TokenValue(page, req) == Some("99")
    ensures TokenValue(base, req) == Some("My file 6-04-2015 $1234-56")
  {
    assert ZeroPad(99, 0) == "99" by {
      assert Decimal(99) == "99";
      assert Zeros(0) == "";
    }
    TestNamesArePlain("Original", req.originalName);
    BaseNameOfPlain(req.originalName);
  }

  /** Two tokens with values around plain text become the two values
      around that text. */
  lemma SubstituteTwoTokens(first: Token, sep: string, second: Token, req: NameRequest)
    requires TokenValue(first, req).Some? && TokenValue(second, req).Some?
    requires forall j :: 0 <= j < |sep| ==> sep[j] != '['
    ensures Substitute(TokenText(first) + sep + TokenText(second), req)
      == TokenValue(first, req).value + sep + TokenValue(second, req).value
  {
    var last := TokenText(second) + "";
    assert last == TokenText(second);
    assert Substitute(last, req) == TokenValue(second, req).value by {
      SubstituteToken(second, "", req);
      NoTokenWithoutBracket("");
      SubstituteNoToken("", req);
    }
    SubstitutePlainPrefix(sep, last, req);
    assert TokenText(first) + sep + TokenText(second) == TokenText(first) + (sep + last);
    SubstituteToken(first, sep + last, req);
  }

  lemma UnpaddedTemplateShape(t: string)
    requires t == "[CURRENTPAGE]-[BASENAME]"
    ensures t == TokenText(CurrentPageToken(0)) + "-" + TokenText(BaseNameToken)
  {
  }

  lemma UnpaddedJoin(a: string, b: string, c: string)
    requires a == "99" && b == "-" && c == "My file 6-04-2015 $1234-56"
    ensures a + b + c == "99-My file 6-04-2015 $1234-56"
  {
  }

  lemma UnpaddedPageParts(template: string, req: NameRequest)
    requires template == TokenText(CurrentPageToken(0)) + "-" + TokenText(BaseNameToken)
    requires req == NameRequest("pdf", "My file 6-04-2015 $1234-56", Some(99), None, None)
    ensures PagePrefix(template, req) == ""
    ensures Body(template, req) == "99-My file 6-04-2015 $1234-56"
  {
    var page, base := CurrentPageToken(0), BaseNameToken;
    var r2 := "-" + TokenText(base);
    assert template == "" + TokenText(page) + r2;
    HasTokenOf("", page, r2);
    HasPageTokenOf("", 0, r2);
    UnpaddedValues(page, base, req);
    TestTextsHaveNoBracket("BLA_", "-");
    SubstituteTwoTokens(page, "-", base, req);
    UnpaddedJoin("99", "-", req.originalName);
  }

  lemma UnpaddedPageSanitized(prefix: string, body: string, full: string)
    requires prefix == "" && body == "99-My file 6-04-2015 $1234-56" && full == body
    ensures Sanitize(prefix + body) == full && |full| < 60
    ensures "99-My file 6-04-2015 $1234-56.pdf" == full + "." + "pdf"
  {
    assert prefix + body == full;
    TestNamesAreLegal("1_BLA_Original", "Invalid_", full);
    SanitizeLegal(full);
  }

  /** A page token without '#' prints the page number as it is. */
  lemma UnpaddedPage(template: string, req: NameRequest)
    requires template == "[CURRENTPAGE]-[BASENAME]"
    requires req == NameRequest("pdf", "My file 6-04-2015 $1234-56", Some(99), None, None)
    ensures GenerateName(template, req) == "99-My file 6-04-2015 $1234-56.pdf"
  {
    UnpaddedTemplateShape(template);
    UnpaddedPageParts(template, req);
    UnpaddedPageSanitized("", "99-My file 6-04-2015 $1234-56", "99-My file 6-04-2015 $1234-56");
    ShortName(template, req, "", "99-My file 6-04-2015 $1234-56", "99-My file 6-04-2015 $1234-56", "99-My file 6-04-2015 $1234-56.pdf");
  }

  /** A null request is refused. */
  lemma NullRequestRefused(template: string)
    ensures Generate(template, None) == Failure(NullRequest)
  {
  }
}
