/** `tokenizeSource` and `tokenizeShell`: lossless on every text, with what each kind of token is made of. */
module SourceTokens {
  import opened Wrappers
  import opened Seqs
  import opened Tokens

  const NEWLINE: string := "\n"

  datatype Options = Options(keywords: set<string>, lineComment: Option<string>, hashComment: bool, lower: string -> string) {
    predicate IsKeyword(word: string) {
      word in keywords || lower(word) in keywords
    }

    /** A line comment starts here; an empty marker is none. */
    predicate LineCommentAt(line: string, i: nat) {
      lineComment.Some? && lineComment.value != "" && At(line, lineComment.value, i)
    }
  }

  predicate IsQuote(c: char) {
    c == '"' || c == '\'' || c == '`'
  }

  predicate IsNumberPart(c: char) {
    IsDigit(c) || c == '.' || c == 'x' || c == 'X' || 'a' <= c <= 'f' || 'A' <= c <= 'F' || c == '_'
  }

  predicate IsWordPart(c: char) {
    IsWordStart(c) || IsDigit(c)
  }

  predicate All(s: string, p: char -> bool) {
    forall k :: 0 <= k < |s| ==> p(s[k])
  }

  predicate IsWord(s: string) {
    s != "" && IsWordStart(s[0]) && All(s, IsWordPart)
  }

  /** What a token of a line is made of, by its kind. */
  predicate Shape(t: Token, o: Options) {
    match t.kind
    case Kw => IsWord(t.text) && (t.text in o.keywords || o.lower(t.text) in o.keywords)
    case Plain => All(t.text, IsSpace) || (IsWord(t.text) && t.text !in o.keywords && o.lower(t.text) !in o.keywords)
    case String => t.text != "" && t.text[0] in ['"', '\'', '`']
    case Number => t.text != "" && (IsDigit(t.text[0]) || t.text[0] == '.') && All(t.text, IsNumberPart)
    case Punct => |t.text| == 1
    case Comment => true
    case _ => false
  }

  ghost predicate Shaped(tokens: seq<Token>, o: Options) {
    forall k :: 0 <= k < |tokens| ==> tokens[k].text != "" && Shape(tokens[k], o)
  }

  /** A comment is the last token of its line. */
  ghost predicate CommentLast(tokens: seq<Token>) {
    forall k :: 0 <= k < |tokens| - 1 ==> tokens[k].kind != Comment
  }

  lemma SliceAll(s: string, i: nat, j: nat, p: char -> bool)
    requires i < j <= |s| && p(s[i]) && forall k :: i + 1 <= k < j ==> p(s[k])
    ensures All(s[i..j], p) && s[i..j][0] == s[i] && |s[i..j]| == j - i
  {
    forall k | 0 <= k < j - i ensures p(s[i..j][k]) { assert s[i..j][k] == s[i + k]; }
  }

  predicate TripleAt(line: string, i: nat)
    requires i < |line|
  {
    (line[i] == '"' || line[i] == '\'') && At(line, [line[i], line[i], line[i]], i)
  }

  /** Behind the next three quotes on this line, or the end of the line. */
  function TripleEnd(line: string, i: nat): nat
    requires i < |line| && TripleAt(line, i)
  {
    var close := Find(line, [line[i], line[i], line[i]], i + 3);
    if close.Some? then close.value + 3 else |line|
  }

  /** The next token of a line: its kind, and where it ends. */
  function TokenAt(line: string, i: nat, o: Options): (r: (Kind, nat))
    requires i < |line|
    ensures i < r.1
  {
    var ch := line[i];
    if o.LineCommentAt(line, i) || (o.hashComment && ch == '#') then (Comment, |line|)
    else if IsSpace(ch) then (Plain, SpanEnd(line, i + 1, IsSpace))
    else if IsQuote(ch) then (String, if TripleAt(line, i) then TripleEnd(line, i) else StringEnd(line, i + 1, ch))
    else if IsDigit(ch) || (ch == '.' && i + 1 < |line| && IsDigit(line[i + 1])) then (Number, SpanEnd(line, i + 1, IsNumberPart))
    else if IsWordStart(ch) then
      var j := SpanEnd(line, i + 1, IsWordPart);
      (if o.IsKeyword(line[i..j]) then Kw else Plain, j)
    else (Punct, i + 1)
  }

  /** A comment starts at the marker, or at a hash where hashes start comments, and takes the rest of the line. */
  lemma CommentIff(line: string, i: nat, o: Options)
    requires i < |line|
    ensures TokenAt(line, i, o).0 == Comment <==>
              (o.lineComment.Some? && o.lineComment.value != "" && o.lineComment.value <= line[i..]) || (o.hashComment && line[i] == '#')
    ensures TokenAt(line, i, o).0 == Comment ==> TokenAt(line, i, o).1 == |line|
  {
    if o.lineComment.Some? { AtIsPrefix(line, o.lineComment.value, i); }
  }

  /** Outside a comment a string starts at every quote. */
  lemma QuoteStartsString(line: string, i: nat, o: Options)
    requires i < |line| && TokenAt(line, i, o).0 != Comment
    ensures TokenAt(line, i, o).0 == String <==> line[i] in ['"', '\'', '`']
  {
    QuotesAreSolid();
  }

  /** A line is a comment as a whole exactly when nothing but blanks stands before its first hash. */
  lemma StartsWithHashIff(line: string)
    ensures StartsWithHash(line) <==> exists k :: 0 <= k < |line| && line[k] == '#' && forall j :: 0 <= j < k ==> IsSpace(line[j])
  {
    hide IsSpace;
    HashIsSolid();
    var trimmed := StripLeft(line, IsSpace);
    var k := |line| - |trimmed|;
    if trimmed != "" { assert trimmed[0] == line[k]; }
  }

  lemma HashIsSolid()
    ensures !IsSpace('#')
  {
  }

  lemma AtIsPrefix(line: string, p: string, i: nat)
    requires i <= |line|
    ensures At(line, p, i) <==> p <= line[i..]
  {
    AtSlice(line, p, i);
    if At(line, p, i) { assert line[i..][..|p|] == line[i..i + |p|]; }
    if p <= line[i..] { assert line[i..i + |p|] == line[i..][..|p|]; }
  }

  /** A string that opens with three quotes ends behind the next three, or with the line. */
  lemma TripleStringEnds(line: string, i: nat, o: Options)
    requires i < |line| && line[i] in "\"'" && [line[i], line[i], line[i]] <= line[i..] && TokenAt(line, i, o).0 != Comment
    ensures var (three, (kind, j)) := ([line[i], line[i], line[i]], TokenAt(line, i, o));
            && kind == String
            && ((i + 6 <= j <= |line| && line[j - 3..j] == three && !exists k :: i + 3 <= k < j - 3 && three <= line[k..])
                || (j == |line| && !exists k :: i + 3 <= k < |line| && three <= line[k..]))
  {
    var three := [line[i], line[i], line[i]];
    QuotesAreSolid();
    AtIsPrefix(line, three, i);
    var close := Find(line, three, i + 3);
    forall k: nat | k <= |line| ensures At(line, three, k) <==> three <= line[k..] { AtIsPrefix(line, three, k); }
    if close.Some? { AtSlice(line, three, close.value); }
  }

  /** A text that starts with a digit is one number exactly when it is of digits, hexadecimal digits, `x`, points
      and underscores. */
  lemma NumberIsOneToken(text: string, o: Options)
    requires text != "" && '0' <= text[0] <= '9' && TokenAt(text, 0, o).0 != Comment
    ensures TokenAt(text, 0, o) == (Number, |text|) <==>
              forall k :: 0 <= k < |text| ==>
                '0' <= text[k] <= '9' || 'a' <= text[k] <= 'f' || 'A' <= text[k] <= 'F' || text[k] in "xX._"
  {
    if All(text, IsNumberPart) { SpanEndIs(text, 1, IsNumberPart, |text|); }
  }

  /** A text that starts with a letter or an underscore is one word exactly when it is of letters, digits and
      underscores; the word is a keyword if it, or its lower case, is in the set. */
  lemma WordIsOneToken(text: string, o: Options)
    requires text != "" && ('a' <= text[0] <= 'z' || 'A' <= text[0] <= 'Z' || text[0] == '_') && TokenAt(text, 0, o).0 != Comment
    ensures TokenAt(text, 0, o) == (if text in o.keywords || o.lower(text) in o.keywords then Kw else Plain, |text|) <==>
              forall k :: 0 <= k < |text| ==>
                'a' <= text[k] <= 'z' || 'A' <= text[k] <= 'Z' || '0' <= text[k] <= '9' || text[k] == '_'
  {
    if All(text, IsWordPart) { SpanEndIs(text, 1, IsWordPart, |text|); }
    assert text[0..|text|] == text;
  }

  /** Every token is made as its kind says. */
  lemma TokenShape(line: string, i: nat, o: Options)
    requires i < |line|
    ensures var (kind, j) := TokenAt(line, i, o); Shape(Token(kind, Slice(line, i, j)), o) && (kind == Comment ==> j == |line|)
  {
    hide IsSpace;
    var ch := line[i];
    if o.LineCommentAt(line, i) || (o.hashComment && ch == '#') {
    } else if IsSpace(ch) {
      SliceAll(line, i, SpanEnd(line, i + 1, IsSpace), IsSpace);
    } else if IsQuote(ch) {
      var j := TokenAt(line, i, o).1;
      assert Slice(line, i, j)[0] == ch;
    } else if IsDigit(ch) || (ch == '.' && i + 1 < |line| && IsDigit(line[i + 1])) {
      SliceAll(line, i, SpanEnd(line, i + 1, IsNumberPart), IsNumberPart);
    } else if IsWordStart(ch) {
      SliceAll(line, i, SpanEnd(line, i + 1, IsWordPart), IsWordPart);
    }
  }

  /** The tokens of a line from `i` on. */
  function LineFrom(line: string, i: nat, o: Options): seq<Token>
    decreases if i < |line| then |line| - i else 0
  {
    if i >= |line| then []
    else
      var (kind, j) := TokenAt(line, i, o);
      [Token(kind, Slice(line, i, j))] + LineFrom(line, j, o)
  }

  /** A line whose first solid character is a hash is a comment as a whole. */
  function TokensOf(line: string, o: Options): seq<Token> {
    if o.hashComment && StartsWithHash(line) then [Token(Comment, line)] else LineFrom(line, 0, o)
  }

  /** The tokens of the lines from `k` on, with the breaks between them. */
  function LinesFrom(lines: seq<string>, k: nat, o: Options): seq<Token>
    decreases |lines| - k
  {
    if k >= |lines| then []
    else TokensOf(lines[k], o) + (if k + 1 < |lines| then [Token(Plain, NEWLINE)] else []) + LinesFrom(lines, k + 1, o)
  }

  method NextToken(line: string, i: nat, o: Options) returns (kind: Kind, j: nat)
    requires i < |line|
    ensures (kind, j) == TokenAt(line, i, o)
  {
    hide IsSpace;
    var ch := line[i];
    if o.LineCommentAt(line, i) { return Comment, |line|; }
    if o.hashComment && ch == '#' { return Comment, |line|; }
    if IsSpace(ch) {
      j := Span(line, i, IsSpace);
      return Plain, j;
    }
    if IsQuote(ch) {
      if TripleAt(line, i) {
        j := TripleEnd(line, i);
      } else {
        j := ScanString(line, i, ch);
      }
      return String, j;
    }
    if IsDigit(ch) || (ch == '.' && i + 1 < |line| && IsDigit(line[i + 1])) {
      j := Span(line, i, IsNumberPart);
      return Number, j;
    }
    if IsWordStart(ch) {
      j := Span(line, i, IsWordPart);
      return if o.IsKeyword(line[i..j]) then Kw else Plain, j;
    }
    j := i + 1;
    kind := Punct;
  }

  /** The loop over one line. */
  method TokenizeLine(line: string, o: Options) returns (tokens: seq<Token>)
    ensures tokens == LineFrom(line, 0, o)
    ensures Lossless(tokens, line) && Shaped(tokens, o) && CommentLast(tokens)
  {
    hide Shape;
    hide TextOf;
    hide TokenAt;
    hide LineFrom;
    TextOfNone();
    tokens := [];
    var i := 0;
    while i < |line|
      invariant tokens + LineFrom(line, i, o) == LineFrom(line, 0, o)
      invariant TextOf(tokens) == Shown(line, i) && Shaped(tokens, o) && CommentLast(tokens)
      invariant i < |line| && tokens != [] ==> tokens[|tokens| - 1].kind != Comment
      decreases |line| + 1 - i
    {
      var kind, j := NextToken(line, i, o);
      NextInLine(tokens, line, i, o);
      tokens := tokens + [Token(kind, Slice(line, i, j))];
      i := j;
    }
    NoMoreTokens(tokens, line, i, o);
  }

  /** One more token of the line shown. */
  lemma NextInLine(tokens: seq<Token>, line: string, i: nat, o: Options)
    requires i < |line| && TextOf(tokens) == Shown(line, i)
    ensures var (kind, j) := TokenAt(line, i, o); var token := Token(kind, Slice(line, i, j));
            && token.text != "" && Shape(token, o) && (kind == Comment ==> j == |line|)
            && TextOf(tokens + [token]) == Shown(line, j)
            && tokens + LineFrom(line, i, o) == tokens + [token] + LineFrom(line, j, o)
  {
    hide Shape;
    hide TextOf;
    hide TokenAt;
    var (kind, j) := TokenAt(line, i, o);
    var token := Token(kind, Slice(line, i, j));
    TokenShape(line, i, o);
    SliceExtends(line, i, j);
    TextOfPush(tokens, token);
    assert tokens + ([token] + LineFrom(line, j, o)) == tokens + [token] + LineFrom(line, j, o);
  }

  lemma NoMoreTokens(tokens: seq<Token>, line: string, i: nat, o: Options)
    requires i >= |line|
    ensures tokens + LineFrom(line, i, o) == tokens
  {
  }

  lemma TextOfNone()
    ensures TextOf([]) == ""
  {
  }

  predicate StartsWithHash(line: string) {
    var trimmed := StripLeft(line, IsSpace);
    trimmed != "" && trimmed[0] == '#'
  }

  /** A line break or a token of a line without one; a comment only right before a line break or at the end. */
  ghost predicate PerLine(tokens: seq<Token>, o: Options) {
    && (forall k :: 0 <= k < |tokens| ==> tokens[k] == Token(Plain, NEWLINE) || ('\n' !in tokens[k].text && Shape(tokens[k], o)))
    && (forall k :: 0 <= k < |tokens| - 1 && tokens[k].kind == Comment ==> tokens[k + 1] == Token(Plain, NEWLINE))
  }

  lemma {:induction false} TokenInText(tokens: seq<Token>, k: nat, c: char)
    requires k < |tokens| && c in tokens[k].text
    ensures c in TextOf(tokens)
  {
    var last := |tokens| - 1;
    if k < last { TokenInText(tokens[..last], k, c); }
  }

  lemma LineTokens(tokens: seq<Token>, line: string, o: Options)
    requires Lossless(tokens, line) && Shaped(tokens, o) && '\n' !in line
    ensures forall k :: 0 <= k < |tokens| ==> '\n' !in tokens[k].text && Shape(tokens[k], o)
  {
    hide Shape;
    forall k | 0 <= k < |tokens| ensures '\n' !in tokens[k].text {
      if '\n' in tokens[k].text { TokenInText(tokens, k, '\n'); }
    }
  }

  lemma LinesHaveNoBreak(src: string, k: nat)
    requires k < |Split(src, NEWLINE)|
    ensures '\n' !in Split(src, NEWLINE)[k]
  {
    hide SplitFrom;
    var line := Split(src, NEWLINE)[k];
    SplitPieces(src, NEWLINE, 0, k);
    forall i: nat | i < |line| ensures line[i] != '\n' {
      assert !At(line, NEWLINE, i);
    }
  }

  lemma AddLine(before: seq<Token>, line: seq<Token>, text: string, o: Options)
    requires PerLine(before, o) && (before == [] || before[|before| - 1] == Token(Plain, NEWLINE))
    requires Lossless(line, text) && Shaped(line, o) && CommentLast(line) && '\n' !in text
    ensures PerLine(before + line, o) && PerLine(before + line + [Token(Plain, NEWLINE)], o)
    ensures TextOf(before + line) == TextOf(before) + text
    ensures TextOf(before + line + [Token(Plain, NEWLINE)]) == TextOf(before) + text + NEWLINE
  {
    hide Shape;
    hide TextOf;
    LineTokens(line, text, o);
    TextOfConcat(before, line);
    TextOfPush(before + line, Token(Plain, NEWLINE));
  }

  /** Every line is tokenized by itself; the pieces and the line breaks give the text back. */
  method TokenizeSource(src: string, o: Options) returns (tokens: seq<Token>)
    ensures tokens == LinesFrom(Split(src, NEWLINE), 0, o)
    ensures Lossless(tokens, src) && PerLine(tokens, o)
  {
    hide Shape;
    hide TextOf;
    hide Lossless;
    hide PerLine;
    hide Shaped;
    hide CommentLast;
    hide Join;
    hide Split;
    hide LinesFrom;
    hide LineFrom;
    var lines := Split(src, NEWLINE);
    JoinSplit(src, NEWLINE);
    NoTokens(o);
    tokens := [];
    for li := 0 to |lines|
      invariant PerLine(tokens, o) && forall k :: 0 <= k < |tokens| ==> tokens[k].text != ""
      invariant li < |lines| ==> tokens == [] || tokens[|tokens| - 1] == Token(Plain, NEWLINE)
      invariant TextOf(tokens) + Join(lines[li..], NEWLINE) == src
      invariant tokens + LinesFrom(lines, li, o) == LinesFrom(lines, 0, o)
    {
      LinesHaveNoBreak(src, li);
      var line := [];
      if o.hashComment && StartsWithHash(lines[li]) {
        HashLine(lines[li], o);
        line := [Token(Comment, lines[li])];
      } else {
        line := TokenizeLine(lines[li], o);
      }
      AddLine(tokens, line, lines[li], o);
      JoinStep(lines, li, TextOf(tokens));
      NoEmptyToken(line, lines[li]);
      NextLine(tokens, lines, li, o);
      tokens := tokens + line;
      if li < |lines| - 1 { tokens := tokens + [Token(Plain, NEWLINE)]; }
    }
    Whole(tokens, src, lines);
    NoMoreLines(tokens, lines, o);
  }

  lemma NextLine(tokens: seq<Token>, lines: seq<string>, li: nat, o: Options)
    requires li < |lines|
    ensures tokens + LinesFrom(lines, li, o)
         == (if li < |lines| - 1 then tokens + TokensOf(lines[li], o) + [Token(Plain, NEWLINE)] else tokens + TokensOf(lines[li], o))
            + LinesFrom(lines, li + 1, o)
  {
    hide TokensOf;
  }

  lemma NoMoreLines(tokens: seq<Token>, lines: seq<string>, o: Options)
    ensures tokens + LinesFrom(lines, |lines|, o) == tokens
  {
  }

  lemma NoTokens(o: Options)
    ensures TextOf([]) == "" && PerLine([], o)
  {
  }

  lemma NoEmptyToken(tokens: seq<Token>, text: string)
    requires Lossless(tokens, text)
    ensures forall k :: 0 <= k < |tokens| ==> tokens[k].text != ""
  {
  }

  lemma Whole(tokens: seq<Token>, src: string, lines: seq<string>)
    requires TextOf(tokens) + Join(lines[|lines|..], NEWLINE) == src && forall k :: 0 <= k < |tokens| ==> tokens[k].text != ""
    ensures Lossless(tokens, src)
  {
    hide TextOf;
  }

  lemma HashLine(line: string, o: Options)
    requires StartsWithHash(line)
    ensures Lossless([Token(Comment, line)], line) && Shaped([Token(Comment, line)], o) && CommentLast([Token(Comment, line)])
  {
    TextOfPush([], Token(Comment, line));
    assert [] + [Token(Comment, line)] == [Token(Comment, line)];
  }

  lemma JoinStep(lines: seq<string>, li: nat, shown: string)
    requires li < |lines|
    ensures shown + Join(lines[li..], NEWLINE)
         == (if li < |lines| - 1 then shown + lines[li] + NEWLINE else shown + lines[li]) + Join(lines[li + 1..], NEWLINE)
  {
    var rest := lines[li..];
    assert rest[1..] == lines[li + 1..];
    if li < |lines| - 1 {
      assert Join(rest, NEWLINE) == rest[0] + NEWLINE + Join(rest[1..], NEWLINE);
    }
  }

  // ---- shell commands ----------------------------------------------------------------------------------

  predicate IsOperator(c: char) {
    c == '=' || c == '<' || c == '>' || c == '|' || c == '&' || c == ';'
  }

  predicate NotSpace(c: char) {
    !IsSpace(c)
  }

  function WordKind(text: string, first: bool): Kind
    requires text != ""
  {
    if first then Cmd
    else if text[0] == '-' then Flag
    else if '/' in text || text[0] == '.' || text[0] == '~' then Path
    else if All(text, IsOperator) then Punct
    else Plain
  }

  /** The command is the first word; of the others a flag starts with a dash, a path has a slash or starts with a point
      or a tilde, and an operator is made of operator characters alone. */
  predicate WordLooks(text: string, first: bool, kind: Kind) {
    var flag := "-" <= text;
    var path := '/' in text || "." <= text || "~" <= text;
    var operator := forall k :: 0 <= k < |text| ==> text[k] in "=<>|&;";
    && (kind == Cmd <==> first)
    && (kind == Flag <==> !first && flag)
    && (kind == Path <==> !first && !flag && path)
    && (kind == Punct <==> !first && !flag && !path && operator)
    && (kind == Plain <==> !first && !flag && !path && !operator)
  }

  lemma WordKindLooks(text: string, first: bool)
    requires text != ""
    ensures WordLooks(text, first, WordKind(text, first))
  {
  }

  /** A blank, a quoted string, or a word of its kind. */
  predicate ShellShape(t: Token, first: bool) {
    && t.text != ""
    && (|| (t.kind == Plain && All(t.text, IsSpace))
        || (t.kind == String && (t.text[0] == '\'' || t.text[0] == '"'))
        || (All(t.text, NotSpace) && t.text[0] != '\'' && t.text[0] != '"' && WordLooks(t.text, first, t.kind)))
  }

  predicate IsBlank(t: Token) {
    All(t.text, IsSpace)
  }

  ghost predicate AllBlank(tokens: seq<Token>) {
    forall k :: 0 <= k < |tokens| ==> IsBlank(tokens[k])
  }

  /** Each token is shaped; only one with nothing but blanks before it can be the command. */
  ghost predicate ShellShaped(tokens: seq<Token>) {
    forall k :: 0 <= k < |tokens| ==> ShellShape(tokens[k], AllBlank(tokens[..k]))
  }

  predicate NotSingleQuote(c: char) {
    c != '\''
  }

  /** The end of a quoted word: in single quotes a backslash is a character like any other. */
  function QuotedEnd(s: string, i: nat): (j: nat)
    requires i < |s|
    ensures i < j
  {
    if s[i] == '"' then StringEnd(s, i + 1, '"')
    else
      var j := SpanEnd(s, i + 1, NotSingleQuote);
      if j < |s| then j + 1 else j
  }

  method ScanShellString(s: string, i: nat) returns (j: nat)
    requires i < |s| && (s[i] == '\'' || s[i] == '"')
    ensures j == QuotedEnd(s, i)
  {
    var quote := s[i];
    j := i + 1;
    while j < |s| && s[j] != quote
      invariant i < j
      invariant quote == '"' ==> StringEnd(s, j, quote) == StringEnd(s, i + 1, quote)
      invariant quote == '\'' ==> j <= |s| && SpanEnd(s, j, NotSingleQuote) == SpanEnd(s, i + 1, NotSingleQuote)
      decreases |s| + 1 - j
    {
      if s[j] == '\\' && quote == '"' { j := j + 1; }
      j := j + 1;
    }
    if j < |s| { j := j + 1; }
  }

  /** The next token of a command: its kind, and where it ends. */
  function ShellAt(command: string, i: nat, first: bool): (r: (Kind, nat))
    requires i < |command|
    ensures i < r.1
  {
    var ch := command[i];
    if IsSpace(ch) then (Plain, SpanEnd(command, i + 1, IsSpace))
    else if ch == '\'' || ch == '"' then (String, QuotedEnd(command, i))
    else
      var j := SpanEnd(command, i + 1, NotSpace);
      (WordKind(command[i..j], first), j)
  }

  /** The tokens from `i` on. */
  function ShellFrom(command: string, i: nat, first: bool): seq<Token>
    decreases if i < |command| then |command| - i else 0
  {
    if i >= |command| then []
    else
      var (kind, j) := ShellAt(command, i, first);
      [Token(kind, Slice(command, i, j))] + ShellFrom(command, j, first && IsSpace(command[i]))
  }

  lemma ShellTokenShape(command: string, i: nat, first: bool)
    requires i < |command|
    ensures var (kind, j) := ShellAt(command, i, first); var token := Token(kind, Slice(command, i, j));
            ShellShape(token, first) && (IsBlank(token) <==> IsSpace(command[i]))
  {
    hide IsSpace;
    hide WordKind;
    QuotesAreSolid();
    var ch := command[i];
    if IsSpace(ch) {
      SliceAll(command, i, SpanEnd(command, i + 1, IsSpace), IsSpace);
    } else if ch == '\'' || ch == '"' {
      assert Slice(command, i, QuotedEnd(command, i))[0] == ch;
    } else {
      var j := SpanEnd(command, i + 1, NotSpace);
      SliceAll(command, i, j, NotSpace);
      WordKindLooks(command[i..j], first);
    }
  }

  lemma QuotesAreSolid()
    ensures !IsSpace('\'') && !IsSpace('"') && !IsSpace('`')
  {
  }

  /** Lossless; every token a blank, a quoted string or a word classified by its look; the command is the
      first thing on the line if it is not quoted, and nothing else is. */
  method TokenizeShell(command: string) returns (tokens: seq<Token>)
    ensures tokens == ShellFrom(command, 0, true)
    ensures Lossless(tokens, command) && ShellShaped(tokens)
  {
    hide TextOf;
    hide AllBlank;
    hide ShellShaped;
    hide IsSpace;
    hide WordKind;
    hide IsBlank;
    NoShellTokens();
    tokens := [];
    var i := 0;
    var wordIndex := 0;
    while i < |command|
      invariant tokens + ShellFrom(command, i, wordIndex == 0) == ShellFrom(command, 0, true)
      invariant TextOf(tokens) == Shown(command, i) && forall k :: 0 <= k < |tokens| ==> tokens[k].text != ""
      invariant ShellShaped(tokens) && (wordIndex == 0 <==> AllBlank(tokens))
      decreases |command| + 1 - i
    {
      var ch := command[i];
      var first := wordIndex == 0;
      var j, kind := i, Plain;
      if IsSpace(ch) {
        j := Span(command, i, IsSpace);
      } else if ch == '\'' || ch == '"' {
        j := ScanShellString(command, i);
        kind := String;
        wordIndex := wordIndex + 1;
      } else {
        j := Span(command, i, NotSpace);
        kind := WordKind(command[i..j], first);
        wordIndex := wordIndex + 1;
      }
      NextShown(tokens, command, i, first);
      tokens := tokens + [Token(kind, Slice(command, i, j))];
      i := j;
    }
  }

  /** One more token shown. */
  lemma NextShown(tokens: seq<Token>, command: string, i: nat, first: bool)
    requires i < |command| && TextOf(tokens) == Shown(command, i) && ShellShaped(tokens) && (first <==> AllBlank(tokens))
    ensures var (kind, j) := ShellAt(command, i, first); var after := tokens + [Token(kind, Slice(command, i, j))];
            && Slice(command, i, j) != "" && TextOf(after) == Shown(command, j) && ShellShaped(after)
            && (AllBlank(after) <==> first && IsSpace(command[i]))
            && tokens + ShellFrom(command, i, first) == after + ShellFrom(command, j, first && IsSpace(command[i]))
  {
    hide TextOf;
    hide AllBlank;
    hide ShellShaped;
    hide IsSpace;
    hide ShellAt;
    hide IsBlank;
    hide ShellShape;
    var (kind, j) := ShellAt(command, i, first);
    var token := Token(kind, Slice(command, i, j));
    ShellTokenShape(command, i, first);
    SliceExtends(command, i, j);
    TextOfPush(tokens, token);
    ShellPush(tokens, token);
    var rest := ShellFrom(command, j, first && IsSpace(command[i]));
    assert tokens + ([token] + rest) == tokens + [token] + rest;
  }

  lemma NoShellTokens()
    ensures TextOf([]) == "" && ShellShaped([]) && AllBlank([])
  {
  }

  lemma ShellPush(tokens: seq<Token>, token: Token)
    requires ShellShaped(tokens) && ShellShape(token, AllBlank(tokens))
    ensures ShellShaped(tokens + [token])
    ensures AllBlank(tokens + [token]) <==> AllBlank(tokens) && IsBlank(token)
  {
    hide ShellShape;
    hide IsBlank;
    var all := tokens + [token];
    assert all[|tokens|] == token;
    forall k | 0 <= k <= |tokens| ensures ShellShape(all[k], AllBlank(all[..k])) {
      assert all[..k] == tokens[..k];
      assert tokens[..|tokens|] == tokens;
    }
  }
}
