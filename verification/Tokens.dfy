/** What the three highlighters share: tokens, character classes, runs and quoted strings. */
module Tokens {

  datatype Kind =
    | Key | String | Number | Bool | Null | Punct | Plain | Comment | Kw | Cmd | Flag | Path

  datatype Token = Token(kind: Kind, text: string)

  /** What the tokens show. */
  function TextOf(tokens: seq<Token>): string {
    if tokens == [] then "" else TextOf(tokens[..|tokens| - 1]) + tokens[|tokens| - 1].text
  }

  /** Nothing lost, nothing added, no empty token. */
  ghost predicate Lossless(tokens: seq<Token>, src: string) {
    TextOf(tokens) == src && forall k :: 0 <= k < |tokens| ==> tokens[k].text != ""
  }

  lemma {:induction false} TextOfConcat(a: seq<Token>, b: seq<Token>)
    ensures TextOf(a + b) == TextOf(a) + TextOf(b)
  {
    if b == [] {
      assert a + b == a;
    } else {
      var (front, last) := (b[..|b| - 1], b[|b| - 1]);
      TextOfConcat(a, front);
      assert a + b == (a + front) + [last] && b == front + [last];
      TextOfPush(a + front, last);
      TextOfPush(front, last);
      TextAssociates(TextOf(a), TextOf(front), last.text);
    }
  }

  lemma TextAssociates(a: string, b: string, c: string)
    ensures (a + b) + c == a + (b + c)
  {
  }

  lemma TextOfPush(tokens: seq<Token>, token: Token)
    ensures TextOf(tokens + [token]) == TextOf(tokens) + token.text
  {
    assert (tokens + [token])[..|tokens|] == tokens;
  }

  /** JavaScript's `\s`: WhiteSpace and LineTerminator of ECMAScript, sections 12.2 and 12.3. */
  predicate IsSpace(c: char) {
    || c == '\t' || c == '\n' || c == '\U{000b}' || c == '\U{000c}' || c == '\r' || c == ' '
    || c == '\U{00a0}' || c == '\U{1680}' || '\U{2000}' <= c <= '\U{200a}'
    || c == '\U{2028}' || c == '\U{2029}' || c == '\U{202f}' || c == '\U{205f}' || c == '\U{3000}' || c == '\U{feff}'
  }

  predicate IsDigit(c: char) {
    '0' <= c <= '9'
  }

  predicate IsWordStart(c: char) {
    'a' <= c <= 'z' || 'A' <= c <= 'Z' || c == '_'
  }

  /** `text.slice(i, j)`: an end beyond the text is the text's end. */
  function Slice(s: string, i: nat, j: nat): (r: string)
    requires i <= |s| && i <= j
  {
    if j > |s| then s[i..] else s[i..j]
  }

  function Shown(s: string, i: nat): string {
    if i > |s| then s else s[..i]
  }

  /** A token of `s` from `i` to `j` continues what was shown. */
  lemma SliceExtends(s: string, i: nat, j: nat)
    requires i < |s| && i < j
    ensures Shown(s, i) + Slice(s, i, j) == Shown(s, j) && Slice(s, i, j) != ""
  {
  }

  /** The end of the run of `p` characters from `j`. */
  function SpanEnd(s: string, j: nat, p: char -> bool): (k: nat)
    requires j <= |s|
    ensures j <= k <= |s| && (forall i :: j <= i < k ==> p(s[i])) && (k < |s| ==> !p(s[k]))
    decreases |s| - j
  {
    if j < |s| && p(s[j]) then SpanEnd(s, j + 1, p) else j
  }

  lemma {:induction false} SpanEndIs(s: string, j: nat, p: char -> bool, k: nat)
    requires j <= k <= |s| && (forall i :: j <= i < k ==> p(s[i])) && (k < |s| ==> !p(s[k]))
    ensures SpanEnd(s, j, p) == k
    decreases k - j
  {
    if j < k { SpanEndIs(s, j + 1, p, k); }
  }

  method Span(s: string, i: nat, p: char -> bool) returns (j: nat)
    requires i < |s|
    ensures j == SpanEnd(s, i + 1, p)
    ensures i < j <= |s| && (forall k :: i < k < j ==> p(s[k])) && (j < |s| ==> !p(s[j]))
  {
    j := i + 1;
    while j < |s| && p(s[j])
      invariant i < j <= |s| && SpanEnd(s, j, p) == SpanEnd(s, i + 1, p)
    {
      j := j + 1;
    }
  }

  // ---- quoted strings --------------------------------------------------------------------------------

  /** Where the scan of a quoted string stops: a backslash takes the next character with it, even past
      the end. */
  function StringEnd(s: string, j: nat, quote: char): (k: nat)
    ensures j <= k && (j <= |s| ==> k <= |s| + 1)
    decreases |s| + 1 - j
  {
    if j >= |s| then j
    else if s[j] == '\\' then StringEnd(s, j + 2, quote)
    else if s[j] == quote then j + 1
    else StringEnd(s, j + 1, quote)
  }

  /** The backslashes that end just before `k`, none before `from`. */
  function Backslashes(s: string, from: nat, k: nat): nat
    requires k <= |s|
  {
    if k <= from || s[k - 1] != '\\' then 0 else 1 + Backslashes(s, from, k - 1)
  }

  /** A quote behind an even number of backslashes. */
  predicate Closes(s: string, from: nat, k: nat, quote: char)
    requires k < |s|
  {
    s[k] == quote && Backslashes(s, from, k) % 2 == 0
  }

  lemma {:induction false} StringEndFrom(s: string, from: nat, j: nat, quote: char)
    requires from <= j && quote != '\\' && (j <= |s| ==> Backslashes(s, from, j) % 2 == 0)
    ensures var end := StringEnd(s, j, quote);
            && (forall k :: j <= k < |s| && k + 1 < end ==> !Closes(s, from, k, quote))
            && (end < |s| ==> j < end && Closes(s, from, end - 1, quote))
            && (end == |s| && j < |s| ==> Closes(s, from, end - 1, quote) || forall k :: j <= k < |s| ==> !Closes(s, from, k, quote))
            && (end > |s| ==> forall k :: j <= k < |s| ==> !Closes(s, from, k, quote))
    decreases |s| + 1 - j
  {
    if j < |s| {
      if s[j] == '\\' {
        StringEndFrom(s, from, j + 2, quote);
      } else if s[j] != quote {
        StringEndFrom(s, from, j + 1, quote);
      }
    }
  }

  /** `end` lies right behind the first closing quote from `from` on; without one it takes the rest of the text. */
  ghost predicate IsStringEnd(s: string, from: nat, quote: char, end: nat) {
    && (forall k :: from <= k < |s| && Closes(s, from, k, quote) && (forall i :: from <= i < k ==> !Closes(s, from, i, quote)) ==> end == k + 1)
    && ((forall k :: from <= k < |s| ==> !Closes(s, from, k, quote)) ==> end >= |s|)
  }

  /** A quoted string ends right behind its first quote that an even number of backslashes precedes. */
  lemma StringEndIff(s: string, from: nat, quote: char)
    requires from <= |s| && quote != '\\'
    ensures IsStringEnd(s, from, quote, StringEnd(s, from, quote))
  {
    StringEndFrom(s, from, from, quote);
  }

  /** The loop that scans a quoted string from its opening quote. */
  method ScanString(s: string, i: nat, quote: char) returns (j: nat)
    requires i < |s| && quote != '\\'
    ensures j == StringEnd(s, i + 1, quote) && i < j
    ensures IsStringEnd(s, i + 1, quote, j)
  {
    StringEndIff(s, i + 1, quote);
    hide IsStringEnd;
    j := i + 1;
    while j < |s|
      invariant i < j && StringEnd(s, j, quote) == StringEnd(s, i + 1, quote)
      decreases |s| + 1 - j
    {
      if s[j] == '\\' {
        j := j + 2;
        continue;
      }
      if s[j] == quote {
        j := j + 1;
        break;
      }
      j := j + 1;
    }
  }
}
