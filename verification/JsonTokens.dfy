/** `tokenizeJson`: lossless on every text, and right about keys on every JSON document. */
module JsonTokens {
  import opened Seqs
  import opened Tokens

  // ---- the tokenizer ---------------------------------------------------------------------------------

  datatype Bracket = Obj | Arr

  /** The open brackets, and whether a string would be a key. */
  datatype Context = Context(stack: seq<Bracket>, expectingKey: bool) {
    predicate InObject() {
      stack != [] && stack[|stack| - 1] == Obj
    }

    /** After one of `{}[]:,`; closing with nothing open closes nothing. */
    function After(ch: char): Context {
      match ch
      case '{' => Context(stack + [Obj], true)
      case '[' => Context(stack + [Arr], false)
      case ':' => Context(stack, false)
      case ',' => Context(stack, InObject())
      case _ =>
        var rest := if stack == [] then [] else stack[..|stack| - 1];
        Context(rest, Context(rest, false).InObject())
    }
  }

  predicate IsPunct(c: char) {
    c == '{' || c == '}' || c == '[' || c == ']' || c == ':' || c == ','
  }

  predicate IsNumberStart(c: char) {
    IsDigit(c) || c == '-'
  }

  predicate IsNumberPart(c: char) {
    IsDigit(c) || c == '.' || c == 'e' || c == 'E' || c == '+' || c == '-'
  }

  datatype Step = Step(token: Token, next: nat, context: Context)

  function StepAt(src: string, i: nat, c: Context): (s: Step)
    requires i < |src|
    ensures i < s.next && s.token.text == Slice(src, i, s.next)
  {
    var ch := src[i];
    if IsSpace(ch) then
      var j := SpanEnd(src, i + 1, IsSpace);
      Step(Token(Plain, src[i..j]), j, c)
    else if IsPunct(ch) then Step(Token(Punct, [ch]), i + 1, c.After(ch))
    else if ch == '"' then
      var j := StringEnd(src, i + 1, '"');
      Step(Token(if c.expectingKey && c.InObject() then Key else String, Slice(src, i, j)), j, c)
    else if IsNumberStart(ch) then
      var j := SpanEnd(src, i + 1, IsNumberPart);
      Step(Token(Number, src[i..j]), j, c)
    else if At(src, "true", i) then AtSlice(src, "true", i); Step(Token(Bool, "true"), i + 4, c)
    else if At(src, "false", i) then AtSlice(src, "false", i); Step(Token(Bool, "false"), i + 5, c)
    else if At(src, "null", i) then AtSlice(src, "null", i); Step(Token(Null, "null"), i + 4, c)
    else Step(Token(Plain, [ch]), i + 1, c)
  }

  /** The tokens from `i` on. */
  function Tail(src: string, i: nat, c: Context): seq<Token>
    decreases if i < |src| then |src| - i else 0
  {
    if i >= |src| then []
    else
      var s := StepAt(src, i, c);
      [s.token] + Tail(src, s.next, s.context)
  }

  lemma Pushed(tokens: seq<Token>, src: string, i: nat, c: Context)
    requires i < |src|
    ensures var s := StepAt(src, i, c);
            tokens + [s.token] + Tail(src, s.next, s.context) == tokens + Tail(src, i, c)
  {
    hide StepAt;
    var s := StepAt(src, i, c);
    assert tokens + [s.token] + Tail(src, s.next, s.context) == tokens + ([s.token] + Tail(src, s.next, s.context));
  }

  const START: Context := Context([], false)

  method TokenizeJson(src: string) returns (tokens: seq<Token>)
    ensures tokens == Tail(src, 0, START)
    ensures Lossless(tokens, src)
  {
    hide Tail;
    TailAtEnd(src);
    tokens := [];
    var i := 0;
    var expectingKey := false;
    var stack: seq<Bracket> := [];
    while i < |src|
      invariant tokens + Tail(src, i, Context(stack, expectingKey)) == Tail(src, 0, START)
      decreases |src| + 1 - i
    {
      var ch := src[i];
      Pushed(tokens, src, i, Context(stack, expectingKey));
      if IsSpace(ch) {
        var j := Span(src, i, IsSpace);
        tokens := tokens + [Token(Plain, src[i..j])];
        i := j;
      } else if IsPunct(ch) {
        if ch == '{' {
          stack := stack + [Obj];
          expectingKey := true;
        } else if ch == '[' {
          stack := stack + [Arr];
          expectingKey := false;
        } else if ch == '}' || ch == ']' {
          if stack != [] { stack := stack[..|stack| - 1]; }
          expectingKey := stack != [] && stack[|stack| - 1] == Obj;
        } else if ch == ':' {
          expectingKey := false;
        } else {
          expectingKey := stack != [] && stack[|stack| - 1] == Obj;
        }
        tokens := tokens + [Token(Punct, [ch])];
        i := i + 1;
      } else if ch == '"' {
        var j := ScanString(src, i, '"');
        var isKey := expectingKey && stack != [] && stack[|stack| - 1] == Obj;
        tokens := tokens + [Token(if isKey then Key else String, Slice(src, i, j))];
        i := j;
      } else if IsNumberStart(ch) {
        var j := Span(src, i, IsNumberPart);
        tokens := tokens + [Token(Number, src[i..j])];
        i := j;
      } else if At(src, "true", i) {
        tokens := tokens + [Token(Bool, "true")];
        i := i + 4;
      } else if At(src, "false", i) {
        tokens := tokens + [Token(Bool, "false")];
        i := i + 5;
      } else if At(src, "null", i) {
        tokens := tokens + [Token(Null, "null")];
        i := i + 4;
      } else {
        tokens := tokens + [Token(Plain, [ch])];
        i := i + 1;
      }
    }
    TailLossless(src, 0, START);
  }

  lemma TailAtEnd(src: string)
    ensures forall i, c :: i >= |src| ==> Tail(src, i, c) == []
  {
  }

  /** From any place and context, the tokens show the rest of the text. */
  lemma {:induction false} TailLossless(src: string, i: nat, c: Context)
    ensures Lossless(Tail(src, i, c), if i < |src| then src[i..] else "")
    decreases if i < |src| then |src| - i else 0
  {
    hide StepAt;
    hide TextOf;
    TextOfNothing();
    if i < |src| {
      var s := StepAt(src, i, c);
      TailLossless(src, s.next, s.context);
      TextOfConcat([s.token], Tail(src, s.next, s.context));
      TextOfPush([], s.token);
      assert [] + [s.token] == [s.token];
      SliceRest(src, i, s.next);
    }
  }

  lemma TextOfNothing()
    ensures TextOf([]) == ""
  {
  }

  lemma SliceRest(src: string, i: nat, j: nat)
    requires i < |src| && i < j
    ensures Slice(src, i, j) != "" && Slice(src, i, j) + (if j < |src| then src[j..] else "") == src[i..]
  {
  }

  // ---- documents ----------------------------------------------------------------------------------------

  /** A JSON value as written: strings and numbers by their characters, with the blanks around each part. */
  datatype Json =
    | Object(fields: seq<Field>, blank: string)
    | Array(items: seq<Item>, blank: string)
    | Text(body: string)
    | Numeral(digits: string)
    | True | False | Nothing

  datatype Item = Item(before: string, value: Json, after: string)

  datatype Field = Field(before: string, name: string, middle: string, item: Item)

  predicate Blank(s: string) {
    forall k :: 0 <= k < |s| ==> IsSpace(s[k])
  }

  /** Characters between the quotes: no bare quote, no backslash without its partner. */
  predicate Body(s: string) {
    s == "" || (if s[0] == '\\' then |s| >= 2 && Body(s[2..]) else s[0] != '"' && Body(s[1..]))
  }

  predicate WellFormed(v: Json)
    decreases v, 0
  {
    match v
    case Object(fields, blank) => Blank(blank) && forall k :: 0 <= k < |fields| ==> WellFormedField(fields[k])
    case Array(items, blank) => Blank(blank) && forall k :: 0 <= k < |items| ==> WellFormedItem(items[k])
    case Text(body) => Body(body)
    case Numeral(digits) => digits != "" && IsNumberStart(digits[0]) && forall k :: 1 <= k < |digits| ==> IsNumberPart(digits[k])
    case _ => true
  }

  predicate WellFormedItem(item: Item)
    decreases item, 1
  {
    Blank(item.before) && WellFormed(item.value) && Blank(item.after)
  }

  predicate WellFormedField(f: Field)
    decreases f, 2
  {
    Blank(f.before) && Body(f.name) && Blank(f.middle) && WellFormedItem(f.item)
  }

  /** The pieces a value is written as: blanks, punctuation, names and scalars, each with its kind. */
  function Quoted(body: string): string {
    "\"" + body + "\""
  }

  function BlankTokens(s: string): seq<Token> {
    if s == "" then [] else [Token(Plain, s)]
  }

  function Mark(c: char): seq<Token> {
    [Token(Punct, [c])]
  }

  /** What the highlighter ought to say of a value: names are keys, texts are strings. */
  function Meant(v: Json): seq<Token>
    decreases v, 0
  {
    match v
    case Object(fields, blank) => Mark('{') + (if fields == [] then BlankTokens(blank) else MeantFields(fields)) + Mark('}')
    case Array(items, blank) => Mark('[') + (if items == [] then BlankTokens(blank) else MeantItems(items)) + Mark(']')
    case Text(body) => [Token(String, Quoted(body))]
    case Numeral(digits) => [Token(Number, digits)]
    case True => [Token(Bool, "true")]
    case False => [Token(Bool, "false")]
    case Nothing => [Token(Null, "null")]
  }

  function MeantItem(item: Item): seq<Token>
    decreases item, 1
  {
    BlankTokens(item.before) + Meant(item.value) + BlankTokens(item.after)
  }

  function MeantItems(items: seq<Item>): seq<Token>
    requires items != []
    decreases items, 2
  {
    MeantItem(items[0]) + if |items| == 1 then [] else Mark(',') + MeantItems(items[1..])
  }

  function MeantField(f: Field): seq<Token>
    decreases f, 3
  {
    BlankTokens(f.before) + [Token(Key, Quoted(f.name))] + BlankTokens(f.middle) + Mark(':') + MeantItem(f.item)
  }

  function MeantFields(fields: seq<Field>): seq<Token>
    requires fields != []
    decreases fields, 4
  {
    MeantField(fields[0]) + if |fields| == 1 then [] else Mark(',') + MeantFields(fields[1..])
  }

  // ---- numerals and blanks of the grammar -------------------------------------------------------------

  predicate Digits(s: string) {
    s != "" && forall k :: 0 <= k < |s| ==> s[k] in "0123456789"
  }

  /** A number of section 6 of RFC 8259: an optional minus, an integer without a leading zero, an optional fraction,
      an optional exponent. */
  predicate IsNumeral(minus: string, whole: string, fraction: string, exponent: string) {
    && (minus == "" || minus == "-")
    && (whole == "0" || (Digits(whole) && whole[0] != '0'))
    && (fraction == "" || (fraction[0] == '.' && Digits(fraction[1..])))
    && (exponent == "" || (exponent[0] in "eE"
          && (Digits(exponent[1..]) || (|exponent| >= 2 && exponent[1] in "+-" && Digits(exponent[2..])))))
  }

  /** Every such number is a well-formed numeral, and by itself one token. */
  lemma NumeralIsOneToken(minus: string, whole: string, fraction: string, exponent: string)
    requires IsNumeral(minus, whole, fraction, exponent)
    ensures var digits := minus + whole + fraction + exponent;
            WellFormed(Numeral(digits)) && Tail(digits, 0, START) == [Token(Number, digits)]
  {
    var digits := minus + whole + fraction + exponent;
    PartsAreNumeric(minus, whole, fraction, exponent);
    NumericConcat(minus, whole);
    NumericConcat(minus + whole, fraction);
    NumericConcat(minus + whole + fraction, exponent);
    NumericToken(digits);
  }

  predicate Numeric(s: string) {
    forall k :: 0 <= k < |s| ==> IsNumberPart(s[k])
  }

  lemma NumericConcat(a: string, b: string)
    requires Numeric(a) && Numeric(b)
    ensures Numeric(a + b)
  {
  }

  lemma PartsAreNumeric(minus: string, whole: string, fraction: string, exponent: string)
    requires IsNumeral(minus, whole, fraction, exponent)
    ensures Numeric(minus) && Numeric(whole) && Numeric(fraction) && Numeric(exponent)
    ensures var digits := minus + whole + fraction + exponent; digits != "" && IsNumberStart(digits[0])
  {
    if fraction != "" { BehindOne(fraction, 1); }
    if exponent != "" { BehindOne(exponent, if Digits(exponent[1..]) then 1 else 2); }
  }

  lemma BehindOne(s: string, n: nat)
    requires n <= |s| && Digits(s[n..])
    ensures forall k :: n <= k < |s| ==> IsNumberPart(s[k])
  {
    forall k | n <= k < |s| ensures IsNumberPart(s[k]) { assert s[k] == s[n..][k - n]; }
  }

  lemma NumericToken(digits: string)
    requires digits != "" && IsNumberStart(digits[0]) && Numeric(digits)
    ensures Tail(digits, 0, START) == [Token(Number, digits)]
  {
    SpanEndIs(digits, 1, IsNumberPart, |digits|);
    assert digits[0..|digits|] == digits;
    assert StepAt(digits, 0, START) == Step(Token(Number, digits), |digits|, START);
    hide StepAt;
  }

  /** One character of a string as section 7 of RFC 8259 writes it: itself, or a backslash and what it escapes. */
  predicate IsStringPiece(piece: string) {
    (|piece| == 1 && piece[0] != '"' && piece[0] != '\\') || (|piece| == 2 && piece[0] == '\\')
  }

  function AllOf(pieces: seq<string>): string {
    if pieces == [] then "" else pieces[0] + AllOf(pieces[1..])
  }

  /** Any such characters make a body. */
  lemma {:induction false} StringPiecesAreBody(pieces: seq<string>)
    requires forall k :: 0 <= k < |pieces| ==> IsStringPiece(pieces[k])
    ensures Body(AllOf(pieces))
  {
    if pieces != [] {
      StringPiecesAreBody(pieces[1..]);
      var (piece, rest) := (pieces[0], AllOf(pieces[1..]));
      assert (piece + rest)[|piece|..] == rest;
    }
  }

  /** The whitespace of section 2 of RFC 8259 is blank. */
  lemma WhitespaceIsBlank(s: string)
    requires forall k :: 0 <= k < |s| ==> s[k] in [' ', '\t', '\n', '\r']
    ensures Blank(s)
  {
  }

  // ---- reading a document back ------------------------------------------------------------------------

  /** The tokens' text stands in `src` at `i`. */
  predicate Fits(src: string, tokens: seq<Token>, i: nat) {
    At(src, TextOf(tokens), i)
  }

  function Width(tokens: seq<Token>): nat {
    |TextOf(tokens)|
  }

  /** In context `c`, the tokenizer reads exactly `tokens` at `i`, and goes on in context `d`. */
  ghost predicate Reads(src: string, i: nat, c: Context, tokens: seq<Token>, d: Context) {
    Tail(src, i, c) == tokens + Tail(src, i + Width(tokens), d)
  }

  lemma ReadsNothing(src: string, i: nat, c: Context)
    ensures Reads(src, i, c, [], c) && Width([]) == 0
  {
    hide Tail;
    hide StepAt;
  }

  lemma ReadsThen(src: string, i: nat, c: Context, a: seq<Token>, d: Context, b: seq<Token>, e: Context)
    requires Reads(src, i, c, a, d) && Reads(src, i + Width(a), d, b, e)
    ensures Reads(src, i, c, a + b, e) && Width(a + b) == Width(a) + Width(b)
  {
    hide Tail;
    TextOfConcat(a, b);
    var rest := Tail(src, i + Width(a + b), e);
    assert a + (b + rest) == a + b + rest;
  }

  lemma FitsThen(src: string, a: seq<Token>, b: seq<Token>, i: nat)
    requires Fits(src, a + b, i)
    ensures Fits(src, a, i) && Fits(src, b, i + Width(a)) && Width(a + b) == Width(a) + Width(b)
  {
    TextOfConcat(a, b);
    AtConcat(src, TextOf(a), TextOf(b), i);
  }

  lemma One(token: Token)
    ensures TextOf([token]) == token.text && Width([token]) == |token.text|
  {
    TextOfPush([], token);
    assert [] + [token] == [token];
  }

  /** One token, if that is the step taken. */
  lemma StepReads(src: string, i: nat, c: Context, token: Token, d: Context)
    requires i < |src| && StepAt(src, i, c) == Step(token, i + |token.text|, d)
    ensures Reads(src, i, c, [token], d)
  {
    hide StepAt;
    One(token);
  }

  lemma PunctReads(src: string, i: nat, c: Context, ch: char)
    requires IsPunct(ch) && Fits(src, Mark(ch), i)
    ensures i < |src| && src[i] == ch && Width(Mark(ch)) == 1 && Reads(src, i, c, Mark(ch), c.After(ch))
  {
    One(Token(Punct, [ch]));
    assert [ch][0] == src[i + 0];
    StepReads(src, i, c, Token(Punct, [ch]), c.After(ch));
  }

  /** A blank is read whole when no blank follows it. */
  lemma BlankReads(src: string, i: nat, c: Context, s: string)
    requires Blank(s) && Fits(src, BlankTokens(s), i)
    requires i + |s| < |src| ==> !IsSpace(src[i + |s|])
    ensures Width(BlankTokens(s)) == |s| && Reads(src, i, c, BlankTokens(s), c)
  {
    hide IsSpace;
    hide StepAt;
    hide Tail;
    hide TextOf;
    if s == "" {
      EmptyWidth();
      ReadsNothing(src, i, c);
    } else {
      One(Token(Plain, s));
      assert forall k :: 0 <= k < |s| ==> src[i + k] == s[k];
      assert src[i + 0] == s[0];
      forall k | i <= k < i + |s| ensures IsSpace(src[k]) { assert src[i + (k - i)] == s[k - i]; }
      SpanEndIs(src, i + 1, IsSpace, i + |s|);
      AtSlice(src, s, i);
      BlankStep(src, i, c);
      StepReads(src, i, c, Token(Plain, s), c);
    }
  }

  lemma BlankStep(src: string, i: nat, c: Context)
    requires i < |src| && IsSpace(src[i])
    ensures var j := SpanEnd(src, i + 1, IsSpace); StepAt(src, i, c) == Step(Token(Plain, src[i..j]), j, c)
  {
  }

  lemma EmptyWidth()
    ensures Width([]) == 0
  {
  }

  lemma {:induction false} BodyEnd(src: string, j: nat, body: string)
    requires Body(body) && At(src, body, j) && j + |body| < |src| && src[j + |body|] == '"'
    ensures StringEnd(src, j, '"') == j + |body| + 1
    decreases |body|
  {
    if body != "" {
      assert src[j + 0] == body[0];
      var n := if body[0] == '\\' then 2 else 1;
      forall k | 0 <= k < |body[n..]| ensures body[n..][k] == src[j + n + k] { assert body[n + k] == src[j + (n + k)]; }
      BodyEnd(src, j + n, body[n..]);
    }
  }

  /** Where a quoted body stands, the scan ends behind its closing quote. */
  lemma QuotedAt(src: string, i: nat, body: string)
    requires Body(body) && At(src, Quoted(body), i)
    ensures i + |body| + 2 <= |src| && src[i] == '"'
    ensures StringEnd(src, i + 1, '"') == i + |body| + 2 && Slice(src, i, i + |body| + 2) == Quoted(body)
  {
    hide StringEnd;
    hide Quoted;
    hide Body;
    QuotedParts(body);
    var text := Quoted(body);
    assert text[0] == src[i + 0] && text[|body| + 1] == src[i + (|body| + 1)];
    forall k | 0 <= k < |body| ensures body[k] == src[i + 1 + k] { assert text[k + 1] == src[i + (k + 1)]; }
    BodyEnd(src, i + 1, body);
    AtSlice(src, text, i);
  }

  lemma QuotedParts(body: string)
    ensures |Quoted(body)| == |body| + 2 && Quoted(body)[0] == '"' && Quoted(body)[|body| + 1] == '"'
    ensures forall k :: 0 <= k < |body| ==> Quoted(body)[k + 1] == body[k]
  {
  }

  lemma QuotedReads(src: string, i: nat, c: Context, body: string, kind: Kind)
    requires Body(body) && Fits(src, [Token(kind, Quoted(body))], i)
    requires kind == if c.expectingKey && c.InObject() then Key else String
    ensures Reads(src, i, c, [Token(kind, Quoted(body))], c)
  {
    hide TextOf;
    hide Tail;
    hide Quoted;
    hide StepAt;
    One(Token(kind, Quoted(body)));
    QuotedAt(src, i, body);
    QuoteStep(src, i, c);
    QuotedParts(body);
    StepReads(src, i, c, Token(kind, Quoted(body)), c);
  }

  lemma QuoteStep(src: string, i: nat, c: Context)
    requires i < |src| && src[i] == '"'
    ensures var j := StringEnd(src, i + 1, '"');
            StepAt(src, i, c) == Step(Token(if c.expectingKey && c.InObject() then Key else String, Slice(src, i, j)), j, c)
  {
    hide StringEnd;
  }

  lemma NumeralReads(src: string, i: nat, c: Context, digits: string)
    requires WellFormed(Numeral(digits)) && Fits(src, Meant(Numeral(digits)), i)
    requires i + |digits| < |src| ==> !IsNumberPart(src[i + |digits|])
    ensures Reads(src, i, c, Meant(Numeral(digits)), c)
  {
    One(Token(Number, digits));
    assert src[i + 0] == digits[0];
    forall k | i + 1 <= k < i + |digits| ensures IsNumberPart(src[k]) { assert src[i + (k - i)] == digits[k - i]; }
    SpanEndIs(src, i + 1, IsNumberPart, i + |digits|);
    AtSlice(src, digits, i);
    StepReads(src, i, c, Token(Number, digits), c);
  }

  lemma WordReads(src: string, i: nat, c: Context, v: Json)
    requires (v.True? || v.False? || v.Nothing?) && Fits(src, Meant(v), i)
    ensures Reads(src, i, c, Meant(v), c)
  {
    hide StepAt;
    hide TextOf;
    One(Meant(v)[0]);
    WordStep(src, i, c, v);
    StepReads(src, i, c, Meant(v)[0], c);
  }

  lemma WordStep(src: string, i: nat, c: Context, v: Json)
    requires (v.True? || v.False? || v.Nothing?) && At(src, Meant(v)[0].text, i)
    ensures i < |src| && StepAt(src, i, c) == Step(Meant(v)[0], i + |Meant(v)[0].text|, c)
  {
    hide TextOf;
    hide SpanEnd;
    hide StringEnd;
    assert src[i + 0] == Meant(v)[0].text[0];
    if v.False? { assert !At(src, "true", i) by { assert "true"[0] != src[i + 0]; } }
    if v.Nothing? { assert !At(src, "true", i) && !At(src, "false", i) by { assert "true"[0] != src[i + 0] && "false"[0] != src[i + 0]; } }
  }

  /** What may follow a value: nothing, or a bracket or comma. */
  predicate Stops(src: string, i: nat) {
    i < |src| ==> IsPunct(src[i])
  }

  lemma MeantHead(v: Json)
    requires WellFormed(v)
    ensures Meant(v) != [] && Meant(v)[0].text != "" && !IsSpace(Meant(v)[0].text[0])
  {
  }

  lemma ValueStartsSolid(src: string, i: nat, v: Json)
    requires WellFormed(v) && Fits(src, Meant(v), i)
    ensures i < |src| && !IsSpace(src[i])
  {
    hide Meant;
    hide WellFormed;
    hide TextOf;
    MeantHead(v);
    var token := Meant(v)[0];
    assert Meant(v) == [token] + Meant(v)[1..];
    FitsThen(src, [token], Meant(v)[1..], i);
    One(token);
    assert src[i + 0] == token.text[0];
  }

  lemma {:induction false} ItemReads(src: string, i: nat, c: Context, item: Item) returns (d: Context)
    requires WellFormedItem(item) && Fits(src, MeantItem(item), i) && !c.expectingKey
    requires Stops(src, i + Width(MeantItem(item)))
    ensures d.stack == c.stack && Reads(src, i, c, MeantItem(item), d)
    decreases item, 1
  {
    hide Meant;
    hide Reads;
    hide Fits;
    var (a, b, e) := (BlankTokens(item.before), Meant(item.value), BlankTokens(item.after));
    FitsThen(src, a + b, e, i);
    FitsThen(src, a, b, i);
    ValueStartsSolid(src, i + Width(a), item.value);
    BlankWidth(item.before);
    BlankReads(src, i, c, item.before);
    var mid := i + Width(a) + Width(b);
    AfterValue(src, mid, item.after);
    d := ValueReads(src, i + Width(a), c, item.value);
    BlankReads(src, mid, d, item.after);
    ReadsThen(src, i, c, a, c, b, d);
    ReadsThen(src, i, c, a + b, d, e, d);
  }

  lemma BlankWidth(s: string)
    ensures Width(BlankTokens(s)) == |s|
  {
    if s != "" { One(Token(Plain, s)); }
  }

  lemma NoNumberPart(ch: char)
    requires IsSpace(ch) || IsPunct(ch)
    ensures !IsNumberPart(ch) && (IsPunct(ch) ==> !IsSpace(ch))
  {
  }

  /** Behind a value comes a blank or a bracket or comma: no character a number could go on with. */
  lemma AfterValue(src: string, i: nat, blank: string)
    requires Blank(blank) && Fits(src, BlankTokens(blank), i) && Stops(src, i + Width(BlankTokens(blank)))
    ensures i < |src| ==> !IsNumberPart(src[i])
    ensures Width(BlankTokens(blank)) == |blank| && (i + |blank| < |src| ==> !IsSpace(src[i + |blank|]))
  {
    hide IsSpace;
    hide IsPunct;
    hide IsNumberPart;
    hide TextOf;
    BlankWidth(blank);
    if i + |blank| < |src| { NoNumberPart(src[i + |blank|]); }
    if blank != "" {
      One(Token(Plain, blank));
      assert src[i + 0] == blank[0];
      NoNumberPart(src[i]);
    }
  }

  /** A value at a place where a value may stand is read as meant, and leaves the open brackets alone. */
  lemma {:induction false} ValueReads(src: string, i: nat, c: Context, v: Json) returns (d: Context)
    requires WellFormed(v) && Fits(src, Meant(v), i) && !c.expectingKey
    requires i + Width(Meant(v)) < |src| ==> !IsNumberPart(src[i + Width(Meant(v))])
    ensures d.stack == c.stack && Reads(src, i, c, Meant(v), d)
    decreases v, 0
  {
    hide Fits;
    hide Reads;
    match v
    case Object(_, _) =>
      d := ObjectReads(src, i, c, v);
    case Array(_, _) =>
      d := ArrayReads(src, i, c, v);
    case Text(body) =>
      QuotedReads(src, i, c, body, String);
      d := c;
    case Numeral(digits) =>
      One(Token(Number, digits));
      NumeralReads(src, i, c, digits);
      d := c;
    case _ =>
      WordReads(src, i, c, v);
      d := c;
  }

  lemma {:induction false} ObjectReads(src: string, i: nat, c: Context, v: Json) returns (d: Context)
    requires v.Object? && WellFormed(v) && Fits(src, Meant(v), i)
    ensures d.stack == c.stack && Reads(src, i, c, Meant(v), d)
    decreases v.fields, 5
  {
    hide Fits;
    hide Reads;
    hide MeantFields;
    var inside := if v.fields == [] then BlankTokens(v.blank) else MeantFields(v.fields);
    FitsThen(src, Mark('{') + inside, Mark('}'), i);
    FitsThen(src, Mark('{'), inside, i);
    PunctReads(src, i, c, '{');
    var last := i + Width(Mark('{') + inside);
    var e := c.After('{');
    PunctReads(src, last, e, '}');
    if v.fields == [] {
      BlankWidth(v.blank);
      BlankReads(src, i + 1, e, v.blank);
    } else {
      e := FieldsRead(src, i + 1, e, v.fields);
    }
    PunctReads(src, last, e, '}');
    ReadsThen(src, i, c, Mark('{'), c.After('{'), inside, e);
    ReadsThen(src, i, c, Mark('{') + inside, e, Mark('}'), e.After('}'));
    d := e.After('}');
  }

  lemma {:induction false} ArrayReads(src: string, i: nat, c: Context, v: Json) returns (d: Context)
    requires v.Array? && WellFormed(v) && Fits(src, Meant(v), i)
    ensures d.stack == c.stack && Reads(src, i, c, Meant(v), d)
    decreases v.items, 5
  {
    hide Fits;
    hide Reads;
    hide MeantItems;
    var inside := if v.items == [] then BlankTokens(v.blank) else MeantItems(v.items);
    FitsThen(src, Mark('[') + inside, Mark(']'), i);
    FitsThen(src, Mark('['), inside, i);
    PunctReads(src, i, c, '[');
    var last := i + Width(Mark('[') + inside);
    var e := c.After('[');
    PunctReads(src, last, e, ']');
    if v.items == [] {
      BlankWidth(v.blank);
      BlankReads(src, i + 1, e, v.blank);
    } else {
      e := ItemsRead(src, i + 1, e, v.items);
    }
    PunctReads(src, last, e, ']');
    ReadsThen(src, i, c, Mark('['), c.After('['), inside, e);
    ReadsThen(src, i, c, Mark('[') + inside, e, Mark(']'), e.After(']'));
    d := e.After(']');
  }

  lemma {:induction false} ItemsRead(src: string, i: nat, c: Context, items: seq<Item>) returns (d: Context)
    requires items != [] && (forall k :: 0 <= k < |items| ==> WellFormedItem(items[k])) && Fits(src, MeantItems(items), i)
    requires c.stack != [] && c.stack[|c.stack| - 1] == Arr && !c.expectingKey && Stops(src, i + Width(MeantItems(items)))
    ensures d.stack == c.stack && Reads(src, i, c, MeantItems(items), d)
    decreases items, 2
  {
    hide Fits;
    hide Reads;
    hide WellFormedItem;
    hide MeantItem;
    var a := MeantItem(items[0]);
    if |items| == 1 {
      assert MeantItems(items) == a + [] == a;
      d := ItemReads(src, i, c, items[0]);
    } else {
      var b := MeantItems(items[1..]);
      var k := i + Width(a);
      FitsThen(src, a, Mark(',') + b, i);
      FitsThen(src, Mark(','), b, k);
      PunctReads(src, k, c, ',');
      var e := ItemReads(src, i, c, items[0]);
      PunctReads(src, k, e, ',');
      d := ItemsRead(src, k + 1, e.After(','), items[1..]);
      ReadsThen(src, k, e, Mark(','), e.After(','), b, d);
      ReadsThen(src, i, c, a, e, Mark(',') + b, d);
    }
  }

  lemma {:induction false} FieldsRead(src: string, i: nat, c: Context, fields: seq<Field>) returns (d: Context)
    requires fields != [] && (forall k :: 0 <= k < |fields| ==> WellFormedField(fields[k])) && Fits(src, MeantFields(fields), i)
    requires c.InObject() && c.expectingKey && Stops(src, i + Width(MeantFields(fields)))
    ensures d.stack == c.stack && Reads(src, i, c, MeantFields(fields), d)
    decreases fields, 4
  {
    hide Fits;
    hide Reads;
    hide WellFormedField;
    hide MeantField;
    var a := MeantField(fields[0]);
    if |fields| == 1 {
      assert MeantFields(fields) == a + [] == a;
      d := FieldReads(src, i, c, fields[0]);
    } else {
      var b := MeantFields(fields[1..]);
      var k := i + Width(a);
      FitsThen(src, a, Mark(',') + b, i);
      FitsThen(src, Mark(','), b, k);
      PunctReads(src, k, c, ',');
      var e := FieldReads(src, i, c, fields[0]);
      PunctReads(src, k, e, ',');
      d := FieldsRead(src, k + 1, e.After(','), fields[1..]);
      ReadsThen(src, k, e, Mark(','), e.After(','), b, d);
      ReadsThen(src, i, c, a, e, Mark(',') + b, d);
    }
  }

  /** `"name": value` where a name is expected: the name is a key, a text value a string. */
  lemma {:induction false} FieldReads(src: string, i: nat, c: Context, f: Field) returns (d: Context)
    requires WellFormedField(f) && Fits(src, MeantField(f), i)
    requires c.InObject() && c.expectingKey && Stops(src, i + Width(MeantField(f)))
    ensures d.stack == c.stack && Reads(src, i, c, MeantField(f), d)
    decreases f, 3
  {
    hide Fits;
    hide Reads;
    hide MeantItem;
    hide WellFormedItem;
    var (a, b, m, x) := (BlankTokens(f.before), [Token(Key, Quoted(f.name))], BlankTokens(f.middle), MeantItem(f.item));
    FitsThen(src, a + b + m + Mark(':'), x, i);
    FitsThen(src, a + b + m, Mark(':'), i);
    FitsThen(src, a + b, m, i);
    FitsThen(src, a, b, i);
    BlankWidth(f.before);
    BlankWidth(f.middle);
    QuoteStarts(src, i + Width(a), f.name);
    BlankReads(src, i, c, f.before);
    QuotedReads(src, i + Width(a), c, f.name, Key);
    PunctReads(src, i + Width(a + b + m), c, ':');
    BlankReads(src, i + Width(a + b), c, f.middle);
    d := ItemReads(src, i + Width(a + b + m) + 1, c.After(':'), f.item);
    ReadsThen(src, i, c, a, c, b, c);
    ReadsThen(src, i, c, a + b, c, m, c);
    ReadsThen(src, i, c, a + b + m, c, Mark(':'), c.After(':'));
    ReadsThen(src, i, c, a + b + m + Mark(':'), c.After(':'), x, d);
  }

  lemma QuoteStarts(src: string, i: nat, name: string)
    requires Fits(src, [Token(Key, Quoted(name))], i)
    ensures i < |src| && src[i] == '"'
  {
    One(Token(Key, Quoted(name)));
    assert Quoted(name)[0] == src[i + 0];
  }

  /** Every JSON document, however blanks are laid out in it, is split into exactly its parts: each name is
      a key, each text value a string, whatever they contain. */
  lemma DocumentsReadAsMeant(document: Item)
    requires WellFormedItem(document)
    ensures Tail(TextOf(MeantItem(document)), 0, START) == MeantItem(document)
  {
    hide MeantItem;
    hide Tail;
    var tokens := MeantItem(document);
    var src := TextOf(tokens);
    assert Fits(src, tokens, 0);
    var d := ItemReads(src, 0, START, document);
    TailAtEnd(src);
    assert Tail(src, |src|, d) == [];
  }
}
