/** What the annotation codec promises, proved about the definitions in module
    Annotation: the recognizer and the parser accept the same texts, a quoted
    span is one argument whatever separators it holds, type inference sorts
    every bare token into exactly one variant, and the encoder's tokens are
    read back one per argument, in order. */
module AnnotationProperties {
  import opened OscValues
  import opened Numerals
  import opened Annotation

  // ------------------------------------------- recognizer and parser agree

  /** What may follow a complete token: the end of the text, or the argument
      separator and a well-formed rest of the argument list. */
  predicate Continues(style: Style, u: string) {
    u == [] || (u[0] == ArgumentSeparator(style) && Accepting(Run(style, Gap, u[1..])))
  }

  lemma {:induction false} RejectIsFinal(style: Style, t: string)
    ensures Run(style, Reject, t) == Reject
    decreases |t|
  {
    if t != [] {
      RejectIsFinal(style, t[1..]);
    }
  }

  lemma AfterQuoteRun(style: Style, u: string)
    ensures Accepting(Run(style, AfterQuote, u)) == Continues(style, u)
  {
    if u != [] && u[0] != ArgumentSeparator(style) {
      RejectIsFinal(style, u[1..]);
    }
  }

  /** Inside the address, the recognizer accepts exactly when the address
      runs to the end of the text, or stops at the address separator and a
      well-formed argument list follows. */
  lemma {:induction false} AddressRun(style: Style, t: string)
    ensures var k := AddressLength(t);
      Accepting(Run(style, InAddress, t)) ==
      (k == |t| || (t[k] == AddressSeparator(style) && Accepting(Run(style, Gap, t[k + 1..]))))
    decreases |t|
  {
    if t != [] {
      if IsAddressChar(t[0]) {
        var k := AddressLength(t);
        AddressRun(style, t[1..]);
        assert AddressLength(t[1..]) == k - 1;
        if k < |t| {
          TailSlice(t, k);
        }
      } else if t[0] != AddressSeparator(style) {
        RejectIsFinal(style, t[1..]);
      }
    }
  }

  /** Position `j` of a text, seen from its tail. */
  lemma TailSlice(t: string, j: nat)
    requires 1 <= j < |t|
    ensures t[1..][j - 1] == t[j] && t[1..][j..] == t[j + 1..]
  {
  }

  /** Inside a bare token, the recognizer accepts exactly when what follows
      the token's last bare character continues the argument list. */
  lemma {:induction false} BareRun(style: Style, t: string)
    ensures Accepting(Run(style, InBare, t)) ==
      Continues(style, t[BareLength(t, ArgumentSeparator(style))..])
    decreases |t|
  {
    var sep := ArgumentSeparator(style);
    if t != [] {
      if IsBareChar(t[0], sep) {
        BareRun(style, t[1..]);
        assert t[1..][BareLength(t[1..], sep)..] == t[BareLength(t, sep)..];
      } else if t[0] == Quote {
        RejectIsFinal(style, t[1..]);
      }
    }
  }

  /** Inside a quoted span, the recognizer accepts exactly when a closing
      quote comes and what follows it continues the argument list. */
  lemma {:induction false} QuoteRun(style: Style, t: string)
    ensures var k := IndexOf(t, Quote);
      Accepting(Run(style, InQuote, t)) == (k < |t| && Continues(style, t[k + 1..]))
    decreases |t|
  {
    if t != [] {
      if t[0] == Quote {
        AfterQuoteRun(style, t[1..]);
      } else {
        QuoteRun(style, t[1..]);
        var k := IndexOf(t, Quote);
        if k < |t| {
          assert t[1..][k - 1 + 1..] == t[k + 1..];
        }
      }
    }
  }

  /** At the start of an argument list, the recognizer accepts exactly the
      texts the argument parser reads. */
  lemma {:induction false} GapRun(style: Style, t: string)
    ensures Accepting(Run(style, Gap, t)) == ParseArguments(t, style).Some?
    decreases |t|, 2
  {
    var sep := ArgumentSeparator(style);
    if t == [] {
    } else if t[0] == sep {
      if style.Spaces? {
        GapRun(style, t[1..]);
      } else {
        RejectIsFinal(style, t[1..]);
      }
    } else if t[0] == Quote {
      GapRunQuoted(style, t);
    } else {
      GapRunBare(style, t);
    }
  }

  /** What the parser makes of the text after a lexeme. */
  lemma {:induction false} AfterLexeme(style: Style, t: string, lx: Lexeme, rest: string)
    requires t != [] && t[0] != ArgumentSeparator(style)
    requires ReadLexeme(t, ArgumentSeparator(style)) == Some((lx, rest))
    requires |rest| < |t|
    ensures ParseArguments(t, style).Some? == Continues(style, rest)
    decreases |t|, 0
  {
    if rest != [] && rest[0] == ArgumentSeparator(style) {
      GapRun(style, rest[1..]);
    }
  }

  lemma {:induction false} GapRunQuoted(style: Style, t: string)
    requires t != [] && t[0] == Quote
    ensures Accepting(Run(style, Gap, t)) == ParseArguments(t, style).Some?
    decreases |t|, 1
  {
    var sep := ArgumentSeparator(style);
    assert Run(style, Gap, t) == Run(style, InQuote, t[1..]);
    QuoteRun(style, t[1..]);
    var j := IndexOf(t[1..], Quote);
    if j < |t| - 1 {
      var rest := t[j + 2..];
      assert t[1..][j + 1..] == rest;
      AfterLexeme(style, t, Quoted(t[1..j + 1]), rest);
    } else {
      assert Quote !in t[1..];
    }
  }

  lemma {:induction false} GapRunBare(style: Style, t: string)
    requires t != [] && t[0] != Quote && t[0] != ArgumentSeparator(style)
    ensures Accepting(Run(style, Gap, t)) == ParseArguments(t, style).Some?
    decreases |t|, 1
  {
    var sep := ArgumentSeparator(style);
    assert Run(style, Gap, t) == Run(style, InBare, t[1..]);
    BareRun(style, t[1..]);
    var k := BareLength(t, sep);
    var rest := t[k..];
    assert t[1..][BareLength(t[1..], sep)..] == rest;
    AfterLexeme(style, t, Bare(t[..k]), rest);
  }

  /** isValid holds of an annotation exactly when oscMessage reads a message
      from it. */
  lemma ValidIffParses(text: string, style: Style)
    ensures IsValid(text, style) <==> Parse(text, style).Some?
  {
    if text != [] && text[0] == '/' {
      // `/` is an address character, so the address starts on it
      assert Run(style, InAddress, text) == Run(style, InAddress, text[1..]);
      AddressParses(text, style);
    }
  }

  /** From the start of the address, the recognizer accepts exactly what
      Parse reads. */
  lemma AddressParses(text: string, style: Style)
    requires text != [] && text[0] == '/'
    ensures Accepting(Run(style, InAddress, text)) <==> Parse(text, style).Some?
  {
    var k := AddressLength(text);
    var rest := if k < |text| then text[k + 1..] else [];
    var stops := k < |text| && text[k] == AddressSeparator(style);
    assert Accepting(Run(style, InAddress, text)) == (k == |text| || (stops && Accepting(Run(style, Gap, rest)))) by {
      AddressRun(style, text);
    }
    assert Parse(text, style).Some? == (k == |text| || (stops && ParseArguments(rest, style).Some?)) by {
      ParseSucceeds(text, style);
    }
    GapRun(style, rest);
  }

  /** Parse succeeds on a text that starts with `/` exactly when its address
      runs to the end, or is followed by the address separator and an
      argument list that parses. */
  lemma ParseSucceeds(text: string, style: Style)
    requires text != [] && text[0] == '/'
    ensures var k := AddressLength(text);
      Parse(text, style).Some? <==>
        (k == |text| || (text[k] == AddressSeparator(style) && ParseArguments(text[k + 1..], style).Some?))
  {
  }

  // ------------------------------------------------------ quote containment

  /** An address, the style's address separator and one quoted span is one
      string argument, the span without its quotes, whatever separators of
      either style the span holds. */
  lemma SingleQuotedArgument(address: string, s: string, style: Style)
    requires IsValidAddress(address) && Quote !in s
    ensures var text := address + [AddressSeparator(style)] + [Quote] + s + [Quote];
      IsValid(text, style) && Parse(text, style) == Some(Message(address, [Str(s)]))
  {
    var t := [Quote] + s + [Quote];
    QuotedSpanArgument(s, style);
    ParseAfterAddress(address, t, style);
    RegroupQuoted(address + [AddressSeparator(style)], s);
    ValidIffParses(address + [AddressSeparator(style)] + t, style);
  }

  lemma RegroupQuoted(prefix: string, s: string)
    ensures prefix + ([Quote] + s + [Quote]) == prefix + [Quote] + s + [Quote]
  {
  }

  /** A quoted span alone is one string argument. */
  lemma QuotedSpanArgument(s: string, style: Style)
    requires Quote !in s
    ensures ParseArguments([Quote] + s + [Quote], style) == Some([Str(s)])
  {
    var t := [Quote] + s + [Quote];
    assert t[1..] == s + [Quote];
    IndexOfAt(t[1..], Quote, |s|);
    assert t[1..|s| + 1] == s;
    assert ReadLexeme(t, ArgumentSeparator(style)) == Some((Quoted(s), []));
  }

  /** After a valid address and the address separator, Parse reads what the
      argument parser reads. */
  lemma ParseAfterAddress(address: string, t: string, style: Style)
    requires IsValidAddress(address)
    ensures Parse(address + [AddressSeparator(style)] + t, style) ==
      match ParseArguments(t, style)
      case None => None
      case Some(args) => Some(Message(address, args))
  {
    var text := address + ([AddressSeparator(style)] + t);
    assert text == address + [AddressSeparator(style)] + t;
    AddressLengthOf(address, [AddressSeparator(style)] + t);
    assert text[|address|] == AddressSeparator(style);
    assert text[|address| + 1..] == t;
  }

  /** The address of a text that starts with a valid address ends where the
      address does. */
  lemma AddressLengthOf(address: string, rest: string)
    requires IsValidAddress(address)
    requires rest == [] || !IsAddressChar(rest[0])
    ensures AddressLength(address + rest) == |address|
    ensures (address + rest)[..|address|] == address
  {
    var t := address + rest;
    assert forall i :: 0 <= i < |address| ==> t[i] == address[i];
    if rest != [] {
      assert t[|address|] == rest[0];
    }
  }

  // ---------------------------------------------------------- type inference

  /** A string argument's text, written in either style and followed by the
      end of the text or a separator, is read back as that string: as a
      quoted span exactly when the string holds a space, and otherwise as a
      bare token. The string must hold no quote, and one without a space
      must hold no separator. */
  lemma StringReadsBack(s: string, style: Style, rest: string)
    requires s != [] && Quote !in s
    requires ' ' in s || ArgumentSeparator(style) !in s
    requires rest == [] || rest[0] == ArgumentSeparator(style)
    ensures var sep := ArgumentSeparator(style);
      var t := Render(Str(s)) + rest;
      t[0] != sep &&
      ReadLexeme(t, sep) == Some((if ' ' in s then Quoted(s) else Bare(s), rest)) &&
      Infer(if ' ' in s then Quoted(s) else Bare(s)).Str? == (' ' in s || !ReadsAsNonString(s))
  {
    var sep := ArgumentSeparator(style);
    if ' ' in s {
      QuotedSpanReadsBack(s, sep, rest);
    } else {
      assert forall i :: 0 <= i < |s| ==> s[i] in s;
      BareTokenReadsBack(s, sep, rest);
      InferBareClasses(s);
    }
  }

  /** The keywords are neither integer nor float literals. */
  lemma KeywordsAreNotNumbers()
    ensures !IsIntLiteral("true") && !IsFloatLiteral("true")
    ensures !IsIntLiteral("false") && !IsFloatLiteral("false")
  {
    assert !IsDigit("true"[0]) && !IsDigit("false"[0]);
    assert IndexOf("true", '.') == 4 by {
      assert forall j :: 0 <= j < 4 ==> "true"[j] != '.';
    }
    assert IndexOf("false", '.') == 5 by {
      assert forall j :: 0 <= j < 5 ==> "false"[j] != '.';
    }
  }

  /** A bare token's inferred variant is decided by its spelling alone, and
      the classes do not overlap, so the order in which they are tried does
      not matter: each condition below holds exactly when its variant is
      chosen. */
  lemma InferBareClasses(s: string)
    ensures Infer(Bare(s)).Int32? <==> IsIntLiteral(s) && InInt32(IntLiteralValue(s))
    ensures Infer(Bare(s)).Int32? ==> Infer(Bare(s)).value == IntLiteralValue(s)
    ensures Infer(Bare(s)).Float? <==> IsFloatLiteral(s)
    ensures Infer(Bare(s)).Float? ==> Infer(Bare(s)).literal == s
    ensures Infer(Bare(s)) == True <==> s == "true"
    ensures Infer(Bare(s)) == False <==> s == "false"
    ensures Infer(Bare(s)) == Str(s) <==> !ReadsAsNonString(s)
  {
    IntAndFloatLiteralsDisjoint(s);
    KeywordsAreNotNumbers();
  }

  // -------------------------------------------------------------- round trip

  /** An argument that its untyped token reads back as: an in-range integer,
      a well-spelled float, and a string that has no quote and, unless it is
      quoted for holding a space, is non-empty, holds no argument separator
      and does not read as a number or keyword. */
  predicate WellFormedArg(a: Arg, style: Style) {
    match a
    case Int32(n) => InInt32(n)
    case Float(literal) => IsFloatLiteral(literal)
    case Str(s) =>
      Quote !in s &&
      (' ' in s || (s != [] && ArgumentSeparator(style) !in s && !ReadsAsNonString(s)))
    case True => true
    case False => true
  }

  predicate WellFormed(m: Message, style: Style) {
    IsValidAddress(m.address) &&
    forall i :: 0 <= i < |m.arguments| ==> WellFormedArg(m.arguments[i], style)
  }

  /** The lexeme an argument's untyped token is read as. */
  function LexemeOf(a: Arg): Lexeme {
    if a.Str? && ' ' in a.text then Quoted(a.text) else Bare(Render(a))
  }

  /** A well-formed argument written bare is a non-empty bare token. */
  lemma BareRenderChars(a: Arg, style: Style)
    requires WellFormedArg(a, style) && LexemeOf(a).Bare?
    ensures Render(a) != []
    ensures forall i :: 0 <= i < |Render(a)| ==> IsBareChar(Render(a)[i], ArgumentSeparator(style))
  {
    WellFormedSplitsCleanly(a, style);
    PlainRenderChars(a, style);
    if a.Float? {
      FloatLiteralChars(a.literal);
    }
  }

  /** Every well-formed argument's token splits off cleanly. */
  lemma WellFormedSplitsCleanly(a: Arg, style: Style)
    requires WellFormedArg(a, style)
    ensures SplitsCleanly(a, style)
  {
  }

  /** An argument's untyped token, followed by the end of the text or a
      separator, is read as one lexeme that infers back to the argument. */
  lemma TokenReadsBack(a: Arg, style: Style, rest: string)
    requires WellFormedArg(a, style)
    requires rest == [] || rest[0] == ArgumentSeparator(style)
    ensures Render(a) != [] && Render(a)[0] != ArgumentSeparator(style)
    ensures ReadLexeme(Render(a) + rest, ArgumentSeparator(style)) == Some((LexemeOf(a), rest))
    ensures Infer(LexemeOf(a)) == a
  {
    var sep := ArgumentSeparator(style);
    if LexemeOf(a).Quoted? {
      QuotedSpanReadsBack(a.text, sep, rest);
    } else {
      BareRenderChars(a, style);
      BareTokenReadsBack(Render(a), sep, rest);
    }
    InferReadsBack(a, style);
  }

  /** A quoted span with no quote inside reads as that span, up to its
      closing quote. */
  lemma QuotedSpanReadsBack(s: string, sep: char, rest: string)
    requires Quote !in s && sep != Quote
    ensures ReadLexeme([Quote] + s + [Quote] + rest, sep) == Some((Quoted(s), rest))
  {
    var t := [Quote] + s + [Quote] + rest;
    assert t[1..] == s + [Quote] + rest;
    IndexOfAt(t[1..], Quote, |s|);
    assert t[1..|s| + 1] == s;
    assert t[|s| + 2..] == rest;
  }

  /** A bare token followed by the end of the text or a separator reads as
      exactly that token. */
  lemma BareTokenReadsBack(w: string, sep: char, rest: string)
    requires w != [] && forall i :: 0 <= i < |w| ==> IsBareChar(w[i], sep)
    requires rest == [] || rest[0] == sep
    ensures (w + rest)[0] == w[0] && IsBareChar(w[0], sep)
    ensures ReadLexeme(w + rest, sep) == Some((Bare(w), rest))
  {
    var t := w + rest;
    assert t[0] == w[0];
    assert forall i :: 0 <= i < |w| ==> t[i] == w[i];
    assert |w| < |t| ==> t[|w|] == rest[0];
    assert BareLength(t, sep) == |w|;
    assert t[..|w|] == w;
    assert t[|w|..] == rest;
  }

  /** The lexeme of a well-formed argument infers back to the argument. */
  lemma InferReadsBack(a: Arg, style: Style)
    requires WellFormedArg(a, style)
    ensures Infer(LexemeOf(a)) == a
  {
    if LexemeOf(a).Bare? {
      InferBareClasses(Render(a));
      match a
      case Float(literal) =>
        IntAndFloatLiteralsDisjoint(literal);
      case True =>
        KeywordsAreNotNumbers();
      case False =>
        KeywordsAreNotNumbers();
      case _ =>
    }
  }

  /** The joined untyped tokens of well-formed arguments parse back to the
      arguments, one per token, in order. */
  lemma {:induction false} ArgumentsRoundTrip(args: seq<Arg>, style: Style)
    requires args != []
    requires forall i :: 0 <= i < |args| ==> WellFormedArg(args[i], style)
    ensures ParseArguments(JoinTokens(args, false, ArgumentSeparator(style)), style) == Some(args)
    decreases |args|
  {
    var sep := ArgumentSeparator(style);
    var t := JoinTokens(args, false, sep);
    var rest := if |args| == 1 then "" else [sep] + JoinTokens(args[1..], false, sep);
    JoinTokensCons(args, false, sep);
    TokenReadsBack(args[0], style, rest);
    assert t == Render(args[0]) + rest;
    assert t[0] == Render(args[0])[0];
    assert ReadLexeme(t, sep) == Some((LexemeOf(args[0]), rest));
    if |args| > 1 {
      ArgumentsRoundTrip(args[1..], style);
      assert rest[1..] == JoinTokens(args[1..], false, sep);
      ConsTail(args);
    } else {
      assert [args[0]] == args;
    }
  }

  /** Joined tokens are the first token, then a separator and the rest. */
  lemma JoinTokensCons(args: seq<Arg>, typed: bool, sep: char)
    requires args != []
    ensures JoinTokens(args, typed, sep) ==
      Token(args[0], typed) + (if |args| == 1 then "" else [sep] + JoinTokens(args[1..], typed, sep))
  {
    if |args| > 1 {
      Regroup2(Token(args[0], typed), [sep], JoinTokens(args[1..], typed, sep));
    }
  }

  lemma Regroup2(a: string, b: string, c: string)
    ensures a + b + c == a + (b + c)
  {
  }

  lemma ConsTail(args: seq<Arg>)
    requires args != []
    ensures [args[0]] + args[1..] == args
  {
  }

  /** Reading an untyped annotation of a well-formed message gives the
      message back, in both styles; the annotation is valid. */
  lemma RoundTrip(m: Message, style: Style)
    requires WellFormed(m, style)
    ensures Parse(Annotate(m, style, false), style) == Some(m)
    ensures IsValid(Annotate(m, style, false), style)
  {
    var text := Annotate(m, style, false);
    var k := AddressLength(text);
    assert forall i :: 0 <= i < |m.address| ==> text[i] == m.address[i];
    assert k == |m.address|;
    if m.arguments != [] {
      assert text[k + 1..] == JoinTokens(m.arguments, false, ArgumentSeparator(style));
      ArgumentsRoundTrip(m.arguments, style);
      assert text[..k] == m.address;
    }
    ValidIffParses(text, style);
  }

  // ----------------------------------------- one token per argument, in order

  /** Adding an argument at the end adds its token at the end, after one
      argument separator; nothing before it changes. */
  lemma {:induction false} JoinTokensSnoc(args: seq<Arg>, x: Arg, typed: bool, sep: char)
    requires args != []
    ensures JoinTokens(args + [x], typed, sep) == JoinTokens(args, typed, sep) + [sep] + Token(x, typed)
    decreases |args|
  {
    var ys := args + [x];
    assert ys[0] == args[0];
    if |args| == 1 {
      assert ys[1..] == [x];
    } else {
      assert ys[1..] == args[1..] + [x];
      JoinTokensSnoc(args[1..], x, typed, sep);
      Regroup(Token(args[0], typed), JoinTokens(args[1..], typed, sep), Token(x, typed), sep);
    }
  }

  lemma Regroup(head: string, mid: string, last: string, sep: char)
    ensures head + [sep] + (mid + [sep] + last) == head + [sep] + mid + [sep] + last
  {
  }

  /** An annotation grows by one separator and one token per added argument. */
  lemma AnnotateSnoc(m: Message, x: Arg, style: Style, typed: bool)
    requires m.arguments != []
    ensures Annotate(Message(m.address, m.arguments + [x]), style, typed) ==
      Annotate(m, style, typed) + [ArgumentSeparator(style)] + Token(x, typed)
  {
    JoinTokensSnoc(m.arguments, x, typed, ArgumentSeparator(style));
  }


  /** The position of the first `sep` outside a quoted span, counting from a
      point that is inside a span when `quoted` holds; `|s|` when there is none. */
  function UnquotedIndexOf(s: string, sep: char, quoted: bool): (k: nat)
    ensures k <= |s|
    ensures k < |s| ==> s[k] == sep
    decreases |s|
  {
    if s == [] || (s[0] == sep && !quoted) then 0
    else 1 + UnquotedIndexOf(s[1..], sep, if s[0] == Quote then !quoted else quoted)
  }

  /** The parts in order, with `sep` between neighbours. */
  function JoinParts(parts: seq<string>, sep: char): string
    requires parts != []
  {
    if |parts| == 1 then parts[0] else parts[0] + [sep] + JoinParts(parts[1..], sep)
  }

  /** Splits a text at every `sep` that stands outside a quoted span; joining
      the parts with `sep` gives the text back, and the first part runs up to
      the first such `sep`. */
  function SplitUnquoted(s: string, sep: char): (parts: seq<string>)
    ensures parts != []
    ensures JoinParts(parts, sep) == s
    ensures parts[0] == s[..UnquotedIndexOf(s, sep, false)]
    decreases |s|
  {
    var k := UnquotedIndexOf(s, sep, false);
    if k == |s| then [s]
    else
      var tail := SplitUnquoted(s[k + 1..], sep);
      assert s == s[..k] + [sep] + s[k + 1..];
      [s[..k]] + tail
  }

  /** Characters that neither open or close a span nor, outside a span, split. */
  lemma {:induction false} SkipPlain(x: string, y: string, sep: char, quoted: bool)
    requires forall i :: 0 <= i < |x| ==> x[i] != Quote && (quoted || x[i] != sep)
    ensures UnquotedIndexOf(x + y, sep, quoted) == |x| + UnquotedIndexOf(y, sep, quoted)
    decreases |x|
  {
    if x != [] {
      assert (x + y)[0] == x[0];
      assert (x + y)[1..] == x[1..] + y;
      SkipPlain(x[1..], y, sep, quoted);
    } else {
      assert x + y == y;
    }
  }

  /** An argument whose token ends at the first separator outside a quoted
      span: a string that has no quote and is quoted or holds no separator,
      and a float literal. Unlike WellFormedArg this admits strings that read
      back as another type, such as `1`, and the empty string. */
  predicate SplitsCleanly(a: Arg, style: Style) {
    match a
    case Str(s) => Quote !in s && (' ' in s || ArgumentSeparator(style) !in s)
    case Float(literal) => IsFloatLiteral(literal)
    case _ => true
  }

  /** Every character of an argument written bare may stand in a bare token. */
  lemma PlainRenderChars(a: Arg, style: Style)
    requires SplitsCleanly(a, style) && LexemeOf(a).Bare?
    ensures forall i :: 0 <= i < |Render(a)| ==> IsBareChar(Render(a)[i], ArgumentSeparator(style))
  {
    var r := Render(a);
    match a
    case Int32(n) =>
      assert forall i :: 0 <= i < |r| ==> IsDigit(r[i]) || r[i] == '-';
    case Float(literal) => FloatLiteralChars(literal);
    case Str(s) =>
      assert r == s;
      assert forall i :: 0 <= i < |s| ==> s[i] in s;
    case True =>
      assert forall i :: 0 <= i < 4 ==> "true"[i] in "true";
    case False =>
      assert forall i :: 0 <= i < 5 ==> "false"[i] in "false";
  }

  /** An argument's token, typed or not, ends at the first separator that
      stands outside a quoted span. */
  lemma TokenSplitsOff(a: Arg, style: Style, typed: bool, rest: string)
    requires SplitsCleanly(a, style)
    requires rest == [] || rest[0] == ArgumentSeparator(style)
    ensures UnquotedIndexOf(Token(a, typed) + rest, ArgumentSeparator(style), false) == |Token(a, typed)|
  {
    var sep := ArgumentSeparator(style);
    var suffix: string := if typed then ['(', TypeTag(a), ')'] else [];
    assert Token(a, typed) == Render(a) + suffix;
    Regroup2(Render(a), suffix, rest);
    assert UnquotedIndexOf(rest, sep, false) == 0;
    SkipPlain(suffix, rest, sep, false);
    RenderSplitsOff(a, style, suffix + rest);
  }

  /** An argument's text holds no separator outside a quoted span and leaves
      the span closed. */
  lemma RenderSplitsOff(a: Arg, style: Style, after: string)
    requires SplitsCleanly(a, style)
    ensures var sep := ArgumentSeparator(style);
      UnquotedIndexOf(Render(a) + after, sep, false) == |Render(a)| + UnquotedIndexOf(after, sep, false)
  {
    var sep := ArgumentSeparator(style);
    if LexemeOf(a).Quoted? {
      QuotedSpanSplitsOff(a.text, after, sep);
    } else {
      PlainRenderChars(a, style);
      SkipPlain(Render(a), after, sep, false);
    }
  }

  /** A quoted span is skipped whole, separators inside it included. */
  lemma QuotedSpanSplitsOff(s: string, after: string, sep: char)
    requires Quote !in s && sep != Quote
    ensures UnquotedIndexOf([Quote] + s + [Quote] + after, sep, false) ==
      |s| + 2 + UnquotedIndexOf(after, sep, false)
  {
    var t := [Quote] + s + [Quote] + after;
    var u := [Quote] + after;
    assert t[0] == Quote;
    assert t[1..] == s + u;
    assert UnquotedIndexOf(t, sep, false) == 1 + UnquotedIndexOf(s + u, sep, true);
    SkipPlain(s, u, sep, true);
    assert u[0] == Quote && u[1..] == after;
    assert UnquotedIndexOf(u, sep, true) == 1 + UnquotedIndexOf(after, sep, false);
  }

  /** The arguments' tokens, one per argument, in argument order. */
  function Tokens(args: seq<Arg>, typed: bool): (r: seq<string>)
    ensures |r| == |args|
    ensures forall i :: 0 <= i < |args| ==> r[i] == Token(args[i], typed)
  {
    if args == [] then [] else [Token(args[0], typed)] + Tokens(args[1..], typed)
  }

  /** Joined tokens split at the unquoted separators give back the tokens. */
  lemma {:induction false} JoinedTokensSplit(args: seq<Arg>, style: Style, typed: bool)
    requires args != []
    requires forall i :: 0 <= i < |args| ==> SplitsCleanly(args[i], style)
    ensures SplitUnquoted(JoinTokens(args, typed, ArgumentSeparator(style)), ArgumentSeparator(style)) ==
      Tokens(args, typed)
    decreases |args|
  {
    var sep := ArgumentSeparator(style);
    var token := Token(args[0], typed);
    var rest := if |args| == 1 then "" else [sep] + JoinTokens(args[1..], typed, sep);
    JoinTokensCons(args, typed, sep);
    TokenSplitsOff(args[0], style, typed, rest);
    SplitFirst(token, rest, sep);
    if |args| > 1 {
      assert rest[1..] == JoinTokens(args[1..], typed, sep);
      JoinedTokensSplit(args[1..], style, typed);
    }
  }

  /** Splitting at an unquoted separator that ends the first part. */
  lemma SplitFirst(first: string, rest: string, sep: char)
    requires UnquotedIndexOf(first + rest, sep, false) == |first|
    requires rest == [] || rest[0] == sep
    ensures rest == [] ==> SplitUnquoted(first + rest, sep) == [first]
    ensures rest != [] ==> SplitUnquoted(first + rest, sep) == [first] + SplitUnquoted(rest[1..], sep)
  {
    var t := first + rest;
    assert t[..|first|] == first;
    if rest != [] {
      assert t[|first| + 1..] == rest[1..];
    } else {
      assert t == first;
    }
  }

  /** The lexeme one part of a split argument list stands for: a quoted span
      without its quotes, or the bare part itself. */
  function PartLexeme(p: string): Lexeme {
    if |p| >= 2 && p[0] == Quote then Quoted(p[1..|p| - 1]) else Bare(p)
  }

  /** A lexeme as the reader returns it ends at the first separator outside a
      quoted span. */
  lemma LexemeSplitsOff(lx: Lexeme, rest: string, sep: char)
    requires sep != Quote && Quote !in lx.text
    requires lx.Bare? ==> lx.text != [] && sep !in lx.text
    requires rest == [] || rest[0] == sep
    ensures UnquotedIndexOf(Spelling(lx) + rest, sep, false) == |Spelling(lx)|
    ensures PartLexeme(Spelling(lx)) == lx
  {
    assert UnquotedIndexOf(rest, sep, false) == 0;
    var w := lx.text;
    if lx.Quoted? {
      QuotedSpanSplitsOff(w, rest, sep);
      assert ([Quote] + w + [Quote])[1..|w| + 1] == w;
    } else {
      assert forall i :: 0 <= i < |w| ==> w[i] in w;
      SkipPlain(w, rest, sep, false);
      assert w[0] in w;
    }
  }

  /** In equalsComma style the reader agrees with the splitter: an argument
      list that parses holds one argument per part between the commas that
      stand outside quoted spans, each inferred from its part. (In spaces
      style a run of spaces is one separator to the reader, so no such
      agreement holds there.) */
  lemma {:induction false} ParsedArgumentsSplit(t: string)
    requires ParseArguments(t, EqualsComma).Some?
    ensures var args := ParseArguments(t, EqualsComma).value;
      var parts := SplitUnquoted(t, ',');
      |parts| == |args| &&
      forall i :: 0 <= i < |args| ==> args[i] == Infer(PartLexeme(parts[i]))
    decreases |t|
  {
    var lx := ReadLexeme(t, ',').value.0;
    var rest := ReadLexeme(t, ',').value.1;
    LexemeSplitsOff(lx, rest, ',');
    SplitFirst(Spelling(lx), rest, ',');
    if rest != [] {
      ParsedArgumentsSplit(rest[1..]);
    }
  }

  /** After the address and its separator, an annotation holds exactly one
      token per argument, in argument order; each is the argument's text,
      followed by `(` tag `)` when types are requested. Every well-formed
      message qualifies. */
  lemma AnnotationTokens(m: Message, style: Style, typed: bool)
    requires m.arguments != []
    requires forall i :: 0 <= i < |m.arguments| ==> SplitsCleanly(m.arguments[i], style)
    ensures var r := Annotate(m, style, typed);
      SplitUnquoted(r[|m.address| + 1..], ArgumentSeparator(style)) == Tokens(m.arguments, typed)
  {
    var r := Annotate(m, style, typed);
    assert r[|m.address| + 1..] == JoinTokens(m.arguments, typed, ArgumentSeparator(style));
    JoinedTokensSplit(m.arguments, style, typed);
  }
}
