/** The OSC annotation codec: a message written as one line of text and read
    back from it, in one of two styles.

      spaces       `/addr 1 3.142 "a string" string true`
      equalsComma  `/addr=1,3.142,"a string",string,true`

    The encoder may append the argument's type tag to each token (`1(i)`).
    The decoder splits the text after the address on the style's separator,
    except inside a double-quoted span, and infers each argument's type from
    the token's spelling. A separate recognizer decides whether a text is
    well-formed without building a message. */
module Annotation {
  import opened OscValues
  import opened Numerals

  datatype Style = Spaces | EqualsComma

  const Quote: char := '"'

  /** What follows the address when there are arguments. */
  function AddressSeparator(style: Style): char {
    if style.Spaces? then ' ' else '='
  }

  /** What stands between two arguments. */
  function ArgumentSeparator(style: Style): char {
    if style.Spaces? then ' ' else ','
  }

  /** Characters an address may hold: no space, tab, line feed or carriage return,
      neither separator, no quote. */
  predicate IsAddressChar(c: char) {
    c != ' ' && c != '\t' && c != '\n' && c != '\r' && c != ',' && c != '=' && c != Quote
  }

  predicate IsValidAddress(a: string) {
    a != [] && a[0] == '/' && forall i :: 0 <= i < |a| ==> IsAddressChar(a[i])
  }

  // ---------------------------------------------------------------- encoding

  /** A string is wrapped in double quotes exactly when it holds a space, in
      either style; otherwise it is written as it is. */
  function RenderString(s: string): string {
    if ' ' in s then [Quote] + s + [Quote] else s
  }

  /** The canonical text of an argument, without its type tag. */
  function Render(a: Arg): string {
    match a
    case Int32(n) => IntToLiteral(n)
    case Float(literal) => literal
    case Str(s) => RenderString(s)
    case True => "true"
    case False => "false"
  }

  /** One argument's token: its text, then `(` tag `)` when types are requested. */
  function Token(a: Arg, typed: bool): string {
    if typed then Render(a) + ['(', TypeTag(a), ')'] else Render(a)
  }

  /** The arguments' tokens in order, with `sep` between neighbours. */
  function JoinTokens(args: seq<Arg>, typed: bool, sep: char): string {
    if args == [] then ""
    else if |args| == 1 then Token(args[0], typed)
    else Token(args[0], typed) + [sep] + JoinTokens(args[1..], typed, sep)
  }

  /** The annotation of a message: the address, and when there are arguments
      the style's address separator followed by the joined tokens. */
  function Annotate(m: Message, style: Style, typed: bool): (r: string)
    ensures m.address <= r
    ensures |r| > |m.address| <==> m.arguments != []
    ensures m.arguments != [] ==> r[|m.address|] == AddressSeparator(style)
  {
    if m.arguments == [] then m.address
    else m.address + [AddressSeparator(style)] + JoinTokens(m.arguments, typed, ArgumentSeparator(style))
  }

  // ---------------------------------------------------------------- decoding

  /** A token as the tokenizer reads it: bare text, or the inside of a quoted span. */
  datatype Lexeme = Bare(text: string) | Quoted(text: string)

  /** How a lexeme is spelled in the text. */
  function Spelling(lx: Lexeme): string {
    match lx
    case Bare(s) => s
    case Quoted(s) => [Quote] + s + [Quote]
  }

  /** The length of the longest prefix of `t` made of address characters. */
  function AddressLength(t: string): (k: nat)
    ensures k <= |t|
    ensures forall i :: 0 <= i < k ==> IsAddressChar(t[i])
    ensures k < |t| ==> !IsAddressChar(t[k])
  {
    if t == [] || !IsAddressChar(t[0]) then 0 else 1 + AddressLength(t[1..])
  }

  /** A character that may stand in an unquoted token. */
  predicate IsBareChar(c: char, sep: char) {
    c != sep && c != Quote
  }

  /** The length of the longest prefix of `t` made of bare characters. */
  function BareLength(t: string, sep: char): (k: nat)
    ensures k <= |t|
    ensures forall i :: 0 <= i < k ==> IsBareChar(t[i], sep)
    ensures k < |t| ==> !IsBareChar(t[k], sep)
  {
    if t == [] || !IsBareChar(t[0], sep) then 0 else 1 + BareLength(t[1..], sep)
  }

  /** Reads one lexeme off the front of `t`. A quoted span runs to the next
      quote and keeps every separator inside it; a bare token runs to the next
      separator or quote. Fails only on a quote that is never closed. */
  function ReadLexeme(t: string, sep: char): (r: Option<(Lexeme, string)>)
    requires t != [] && t[0] != sep
    ensures r.None? <==> t[0] == Quote && Quote !in t[1..]
    ensures r.Some? ==> t == Spelling(r.value.0) + r.value.1
    ensures r.Some? ==> Quote !in r.value.0.text
    ensures r.Some? && r.value.0.Bare? ==>
      r.value.0.text != [] && sep !in r.value.0.text &&
      (r.value.1 == [] || !IsBareChar(r.value.1[0], sep))
  {
    if t[0] == Quote then
      var k := IndexOf(t[1..], Quote);
      if k == |t| - 1 then None
      else
        assert t == [Quote] + t[1..k + 1] + [Quote] + t[k + 2..];
        Some((Quoted(t[1..k + 1]), t[k + 2..]))
    else
      var k := BareLength(t, sep);
      assert t == t[..k] + t[k..];
      Some((Bare(t[..k]), t[k..]))
  }

  /** A bare token that reads as a number or a boolean rather than a string. */
  predicate ReadsAsNonString(s: string) {
    (IsIntLiteral(s) && InInt32(IntLiteralValue(s))) || IsFloatLiteral(s) || s == "true" || s == "false"
  }

  /** The argument a lexeme stands for: a quoted span is always a string; a
      bare token is an Int32 when it is an in-range integer literal, a float
      when it is a decimal with a point, a boolean when it is `true` or
      `false`, and a string otherwise. */
  function Infer(lx: Lexeme): (r: Arg)
    ensures lx.Quoted? ==> r == Str(lx.text)
    ensures r.Int32? ==> InInt32(r.value) && IsIntLiteral(lx.text) && r.value == IntLiteralValue(lx.text)
    ensures r.Float? ==> IsFloatLiteral(r.literal) && r.literal == lx.text
    ensures r.Str? ==> r.text == lx.text
  {
    match lx
    case Quoted(s) => Str(s)
    case Bare(s) =>
      if IsIntLiteral(s) && InInt32(IntLiteralValue(s)) then Int32(IntLiteralValue(s))
      else if IsFloatLiteral(s) then Float(s)
      else if s == "true" then True
      else if s == "false" then False
      else Str(s)
  }

  /** Reads the argument list that follows the address separator: one or more
      tokens with separators between them (in spaces style a run of spaces).
      A token must end at a separator or at the end of the text. */
  function ParseArguments(t: string, style: Style): (r: Option<seq<Arg>>)
    ensures r.Some? ==> r.value != []
    decreases |t|
  {
    var sep := ArgumentSeparator(style);
    if t == [] then None
    else if t[0] == sep then
      if style.Spaces? then ParseArguments(t[1..], style) else None
    else
      match ReadLexeme(t, sep)
      case None => None
      case Some((lx, rest)) =>
        if rest == [] then Some([Infer(lx)])
        else if rest[0] != sep then None
        else
          match ParseArguments(rest[1..], style)
          case None => None
          case Some(more) => Some([Infer(lx)] + more)
  }

  /** Reads a message from its annotation. The address is the text before the
      first character that cannot be part of an address; that character must
      be the style's address separator, and arguments follow it. */
  function Parse(text: string, style: Style): (r: Option<Message>)
    ensures r.Some? ==> IsValidAddress(r.value.address) && r.value.address <= text
    ensures r.Some? ==>
      |text| == |r.value.address| || text[|r.value.address|] == AddressSeparator(style)
    ensures r.Some? ==> (r.value.arguments == [] <==> text == r.value.address)
  {
    if text == [] || text[0] != '/' then None
    else
      var k := AddressLength(text);
      if k == |text| then Some(Message(text, []))
      else if text[k] != AddressSeparator(style) then None
      else
        match ParseArguments(text[k + 1..], style)
        case None => None
        case Some(args) => Some(Message(text[..k], args))
  }

  // ---------------------------------------------------------------- validity

  /** States of the character-level recognizer behind IsValid. */
  datatype ScanState = InAddress | Gap | InBare | InQuote | AfterQuote | Reject

  function Step(style: Style, st: ScanState, c: char): ScanState {
    var sep := ArgumentSeparator(style);
    match st
    case InAddress =>
      if IsAddressChar(c) then InAddress
      else if c == AddressSeparator(style) then Gap
      else Reject
    case Gap =>
      if c == sep then (if style.Spaces? then Gap else Reject)
      else if c == Quote then InQuote
      else InBare
    case InBare =>
      if c == sep then Gap else if c == Quote then Reject else InBare
    case InQuote => if c == Quote then AfterQuote else InQuote
    case AfterQuote => if c == sep then Gap else Reject
    case Reject => Reject
  }

  function Run(style: Style, st: ScanState, t: string): ScanState
    decreases |t|
  {
    if t == [] then st else Run(style, Step(style, st, t[0]), t[1..])
  }

  predicate Accepting(st: ScanState) {
    st == InAddress || st == InBare || st == AfterQuote
  }

  /** Inside the address, a run of address characters keeps the recognizer there. */
  lemma {:induction false} AddressCharsRun(style: Style, t: string)
    requires forall i :: 0 <= i < |t| ==> IsAddressChar(t[i])
    ensures Run(style, InAddress, t) == InAddress
    decreases |t|
  {
    if t != [] {
      assert forall i :: 0 <= i < |t[1..]| ==> t[1..][i] == t[i + 1];
      AddressCharsRun(style, t[1..]);
    }
  }

  /** The well-formedness check: a `/` opening an address, optionally followed
      by the address separator and a well-formed argument list with balanced
      quotes. An address on its own is a valid annotation. */
  predicate IsValid(text: string, style: Style): (r: bool)
    ensures r ==> text != [] && text[0] == '/'
    ensures IsValidAddress(text) ==> r
  {
    if text == [] || text[0] != '/' then false
    else
      assert IsValidAddress(text) ==> forall i :: 0 <= i < |text[1..]| ==> IsAddressChar(text[1..][i]);
      if IsValidAddress(text) then AddressCharsRun(style, text[1..]); Accepting(Run(style, InAddress, text[1..]))
      else Accepting(Run(style, InAddress, text[1..]))
  }
}
