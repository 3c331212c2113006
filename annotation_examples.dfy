/** The concrete annotations of the OSCKit annotation tests, each proved of
    the model: the two typed encodings of one message, the two untyped texts
    that read back as that message, and the two single quoted-string texts. */
module AnnotationExamples {
  import opened OscValues
  import opened Numerals
  import opened Annotation
  import opened AnnotationProperties

  const ExampleAddress: string := "/an/address/pattern"

  /** The message `[1, 3.142, "a string with spaces", "string", true]` sent
      to `/an/address/pattern`. */
  function ExampleMessage(): Message {
    Message(ExampleAddress, [Int32(1), Float("3.142"), Str(SpacedString), Str("string"), True])
  }

  lemma ExampleAddressIsValid()
    ensures IsValidAddress(ExampleAddress)
  {
    assert forall i :: 0 <= i < |ExampleAddress| ==> ExampleAddress[i] in "/anddresptu";
  }

  lemma RenderOne()
    ensures Render(Int32(1)) == "1"
  {
    assert NatToDigits(1) == [DigitChar(1)];
  }

  const SpacedString: string := "a string with spaces"

  lemma SpacedStringIsQuotable()
    ensures ' ' in SpacedString && Quote !in SpacedString
  {
    assert SpacedString[1] == ' ';
    assert forall j :: 0 <= j < |SpacedString| ==> SpacedString[j] != Quote;
  }

  lemma RenderStringWithSpaces()
    ensures Render(Str(SpacedString)) == "\"" + SpacedString + "\""
  {
    SpacedStringIsQuotable();
  }

  lemma RenderBareString()
    ensures Render(Str("string")) == "string"
  {
    assert forall i :: 0 <= i < 6 ==> "string"[i] != ' ';
  }

  /** The example's annotation, token by token: the address, the address
      separator, then each argument's token after an argument separator. */
  lemma ExampleAnnotation(style: Style, typed: bool)
    ensures var a := ExampleMessage().arguments;
      var sep := [ArgumentSeparator(style)];
      Annotate(ExampleMessage(), style, typed) ==
        ExampleAddress + [AddressSeparator(style)] + Token(a[0], typed) + sep + Token(a[1], typed) +
        sep + Token(a[2], typed) + sep + Token(a[3], typed) + sep + Token(a[4], typed)
  {
    var a := ExampleMessage().arguments;
    assert a[..1] + [a[1]] == a[..2];
    assert a[..2] + [a[2]] == a[..3];
    assert a[..3] + [a[3]] == a[..4];
    assert a[..4] + [a[4]] == a;
    assert a[..1] == [a[0]];
    AnnotateSnoc(Message(ExampleAddress, a[..1]), a[1], style, typed);
    AnnotateSnoc(Message(ExampleAddress, a[..2]), a[2], style, typed);
    AnnotateSnoc(Message(ExampleAddress, a[..3]), a[3], style, typed);
    AnnotateSnoc(Message(ExampleAddress, a[..4]), a[4], style, typed);
  }

  lemma FloatExampleIsLiteral()
    ensures IsFloatLiteral("3.142")
  {
    IndexOfAt("3.142", '.', 1);
    assert "3.142"[..1] == "3";
    assert "3.142"[2..] == "142";
  }

  /** The bare word `string` has no separator or quote and reads as a string. */
  lemma BareStringIsPlain()
    ensures ' ' !in "string" && ',' !in "string" && Quote !in "string"
    ensures !ReadsAsNonString("string")
  {
    var s := "string";
    assert forall j :: 0 <= j < 6 ==> s[j] != ' ' && s[j] != ',' && s[j] != Quote && s[j] != '.';
    assert !IsDigit(s[0]) && !IsSign(s[0]);
    assert IndexOf(s, '.') == 6;
  }

  lemma SpacedStringWellFormed(style: Style)
    ensures WellFormedArg(Str(SpacedString), style)
  {
    SpacedStringIsQuotable();
  }

  lemma BareStringWellFormed(style: Style)
    ensures WellFormedArg(Str("string"), style)
  {
    BareStringIsPlain();
    assert ArgumentSeparator(style) == ' ' || ArgumentSeparator(style) == ',';
  }

  /** The example message reads back from its untyped annotation: its
      address is valid, `3.142` is a float literal, and the bare `string`
      reads as no other type. */
  lemma ExampleIsWellFormed(style: Style)
    ensures WellFormed(ExampleMessage(), style)
  {
    ExampleAddressIsValid();
    var a := ExampleMessage().arguments;
    forall i | 0 <= i < |a|
      ensures WellFormedArg(a[i], style)
    {
      if i == 1 {
        FloatExampleIsLiteral();
      } else if i == 2 {
        SpacedStringWellFormed(style);
      } else if i == 3 {
        BareStringWellFormed(style);
      }
    }
  }

  lemma TypedTokenOne()
    ensures Token(Int32(1), true) == "1(i)"
  {
    RenderOne();
  }

  lemma TypedTokenFloat()
    ensures Token(Float("3.142"), true) == "3.142(f)"
  {
  }

  lemma TypedTokenSpaced()
    ensures Token(Str(SpacedString), true) == "\"" + SpacedString + "\"" + "(s)"
  {
    RenderStringWithSpaces();
  }

  lemma TypedTokenBare()
    ensures Token(Str("string"), true) == "string(s)"
  {
    RenderBareString();
  }

  lemma TypedTokenTrue()
    ensures Token(True, true) == "true(T)"
  {
  }

  /** The typed tokens of the example's arguments. */
  lemma ExampleTypedTokens()
    ensures Token(Int32(1), true) == "1(i)"
    ensures Token(Float("3.142"), true) == "3.142(f)"
    ensures Token(Str(SpacedString), true) == "\"" + SpacedString + "\"" + "(s)"
    ensures Token(Str("string"), true) == "string(s)"
    ensures Token(True, true) == "true(T)"
  {
    TypedTokenOne();
    TypedTokenFloat();
    TypedTokenSpaced();
    TypedTokenBare();
    TypedTokenTrue();
  }

  /** Spaces style with types: the address, a space, then the tagged tokens
      separated by single spaces, the string that holds spaces in quotes.
      The expected text is the test's, written piece by piece. */
  lemma SpacesTypedAnnotation()
    ensures Annotate(ExampleMessage(), Spaces, true) ==
      "/an/address/pattern" + " " + "1(i)" + " " + "3.142(f)" + " " +
      ("\"" + "a string with spaces" + "\"" + "(s)") + " " + "string(s)" + " " + "true(T)"
  {
    ExampleAnnotation(Spaces, true);
    ExampleTypedTokens();
  }

  /** EqualsComma style with types: the address, `=`, then the tagged tokens
      separated by commas with no spaces around them; the string that holds
      spaces is quoted in this style too. */
  lemma EqualsCommaTypedAnnotation()
    ensures Annotate(ExampleMessage(), EqualsComma, true) ==
      "/an/address/pattern" + "=" + "1(i)" + "," + "3.142(f)" + "," +
      ("\"" + "a string with spaces" + "\"" + "(s)") + "," + "string(s)" + "," + "true(T)"
  {
    ExampleAnnotation(EqualsComma, true);
    ExampleTypedTokens();
  }

  /** The untyped tokens of the example's arguments. */
  lemma ExampleUntypedTokens()
    ensures Token(Int32(1), false) == "1"
    ensures Token(Float("3.142"), false) == "3.142"
    ensures Token(Str(SpacedString), false) == "\"" + SpacedString + "\""
    ensures Token(Str("string"), false) == "string"
    ensures Token(True, false) == "true"
  {
    RenderOne();
    RenderStringWithSpaces();
    RenderBareString();
  }

  /** The untyped spaces-style text is valid and reads as the five arguments,
      in order: Int32 1, float 3.142, the string without its quotes, the bare
      string `string`, and true. */
  lemma SpacesAnnotationParses()
    ensures var text := "/an/address/pattern" + " " + "1" + " " + "3.142" + " " +
      ("\"" + "a string with spaces" + "\"") + " " + "string" + " " + "true";
      IsValid(text, Spaces) &&
      Parse(text, Spaces) == Some(Message("/an/address/pattern",
        [Int32(1), Float("3.142"), Str(SpacedString), Str("string"), True]))
  {
    ExampleAnnotation(Spaces, false);
    ExampleUntypedTokens();
    ExampleIsWellFormed(Spaces);
    RoundTrip(ExampleMessage(), Spaces);
  }

  /** The untyped equalsComma text is valid and reads as the same address and
      the same five arguments in the same order. */
  lemma EqualsCommaAnnotationParses()
    ensures var text := "/an/address/pattern" + "=" + "1" + "," + "3.142" + "," +
      ("\"" + "a string with spaces" + "\"") + "," + "string" + "," + "true";
      IsValid(text, EqualsComma) &&
      Parse(text, EqualsComma) == Some(Message("/an/address/pattern",
        [Int32(1), Float("3.142"), Str(SpacedString), Str("string"), True]))
  {
    ExampleAnnotation(EqualsComma, false);
    ExampleUntypedTokens();
    ExampleIsWellFormed(EqualsComma);
    RoundTrip(ExampleMessage(), EqualsComma);
  }

  const SingleString: string := "this should be a single string argument"

  lemma SingleStringHasNoQuote()
    ensures Quote !in SingleString
  {
    assert forall j :: 0 <= j < |SingleString| ==> SingleString[j] != Quote;
  }

  /** In spaces style one quoted span that holds spaces is valid and is
      exactly one string argument, the span without its quotes. */
  lemma SpacesSingleQuotedString()
    ensures var text := "/an/address/pattern" + " " + "\"" + "this should be a single string argument" + "\"";
      IsValid(text, Spaces) &&
      Parse(text, Spaces) == Some(Message("/an/address/pattern", [Str("this should be a single string argument")]))
  {
    ExampleAddressIsValid();
    SingleStringHasNoQuote();
    SingleQuotedArgument(ExampleAddress, SingleString, Spaces);
  }

  /** In equalsComma style `/an/address/pattern="…"` is valid and is exactly
      one string argument without its quotes. */
  lemma EqualsCommaSingleQuotedString()
    ensures var text := "/an/address/pattern" + "=" + "\"" + "this should be a single string argument" + "\"";
      IsValid(text, EqualsComma) &&
      Parse(text, EqualsComma) == Some(Message("/an/address/pattern", [Str("this should be a single string argument")]))
  {
    ExampleAddressIsValid();
    SingleStringHasNoQuote();
    SingleQuotedArgument(ExampleAddress, SingleString, EqualsComma);
  }
}
