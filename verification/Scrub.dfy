/** `crypto.scrub`: drop known plaintext from a message before it is stored on a job row. */
module Scrub {
  import opened Seqs
  import opened Wrappers

  const MARK: string := "[redacted]"
  const WORD: string := "redacted"

  /** `text.replace(secret, "[redacted]")`. */
  function Replaced(text: string, secret: string): string
    requires secret != ""
  {
    Join(Split(text, secret), MARK)
  }

  function ReplacedAll(text: string, secrets: seq<string>): string
    decreases |secrets|
  {
    if secrets == [] then text
    else ReplacedAll(if secrets[0] == "" then text else Replaced(text, secrets[0]), secrets[1..])
  }

  function Truncated(text: string, limit: nat): string {
    if |text| > limit then text[..limit] else text
  }

  function Scrubbed(text: string, secrets: seq<string>, limit: nat): string {
    Truncated(ReplacedAll(text, secrets), limit)
  }

  lemma {:induction false} ReplacedAllAppend(text: string, secrets: seq<string>, last: string)
    ensures ReplacedAll(text, secrets + [last])
         == if last == "" then ReplacedAll(text, secrets) else Replaced(ReplacedAll(text, secrets), last)
    decreases |secrets|
  {
    if secrets != [] {
      assert (secrets + [last])[1..] == secrets[1..] + [last];
      ReplacedAllAppend(if secrets[0] == "" then text else Replaced(text, secrets[0]), secrets[1..], last);
    } else {
      assert (secrets + [last])[1..] == [];
    }
  }

  /** However often the secret occurs: the text is some pieces joined by it, none of which has it, each occurrence the
      leftmost that is left; and the result is the same pieces joined by the mark. */
  lemma ReplacedKeepsTheRest(text: string, secret: string) returns (pieces: seq<string>)
    requires secret != ""
    ensures pieces != [] && Join(pieces, secret) == text && Join(pieces, MARK) == Replaced(text, secret)
    ensures forall k :: 0 <= k < |pieces| ==> !Contains(pieces[k], secret)
    ensures forall k :: 0 <= k < |pieces| - 1 ==> Find(Join(pieces[k..], secret), secret, 0) == Some(|pieces[k]|)
  {
    hide Find;
    hide At;
    hide SplitFrom;
    pieces := Split(text, secret);
    JoinSplit(text, secret);
    forall k: nat | k < |pieces| ensures !Contains(pieces[k], secret) { SplitPieces(text, secret, 0, k); }
    forall k: nat | k < |pieces| - 1 ensures Find(Join(pieces[k..], secret), secret, 0) == Some(|pieces[k]|) {
      assert text[0..] == text;
      LeftmostPiece(text, secret, 0, k);
    }
  }

  /** Behind `k` pieces of a split the next occurrence is where the next piece ends. */
  lemma {:induction false} LeftmostPiece(text: string, secret: string, from: nat, k: nat)
    requires secret != "" && from <= |text| && k < |SplitFrom(text, secret, from)| - 1
    ensures Find(Join(SplitFrom(text, secret, from)[k..], secret), secret, 0) == Some(|SplitFrom(text, secret, from)[k]|)
    decreases k
  {
    hide Find;
    hide At;
    var pieces := SplitFrom(text, secret, from);
    var hit := Find(text, secret, from).value;
    FitsIn(text, secret, hit);
    assert pieces == [text[from..hit]] + SplitFrom(text, secret, hit + |secret|);
    if k == 0 {
      JoinSplitFrom(text, secret, from);
      assert pieces[0..] == pieces;
      FindInRest(text, secret, from, hit);
    } else {
      assert pieces[k..] == SplitFrom(text, secret, hit + |secret|)[k - 1..];
      LeftmostPiece(text, secret, hit + |secret|, k - 1);
    }
  }

  lemma FindInRest(text: string, secret: string, from: nat, hit: nat)
    requires from <= hit <= |text| && Find(text, secret, from) == Some(hit)
    ensures Find(text[from..], secret, 0) == Some(hit - from)
  {
    var rest := text[from..];
    AtSlice(text, rest, from);
    forall i: nat | i <= hit - from && i + |secret| <= |rest| ensures At(rest, secret, i) <==> At(text, secret, from + i) {
      AtInside(text, rest, secret, from, i);
    }
    FitsIn(text, secret, hit);
    FindIs(rest, secret, 0, hit - from);
  }

  method Scrub(text: string, secrets: seq<string>, limit: nat) returns (out: string)
    ensures out == Scrubbed(text, secrets, limit)
    ensures |out| <= limit
  {
    out := text;
    for k := 0 to |secrets|
      invariant out == ReplacedAll(text, secrets[..k])
    {
      assert secrets[..k + 1] == secrets[..k] + [secrets[k]];
      ReplacedAllAppend(text, secrets[..k], secrets[k]);
      if secrets[k] != "" {
        out := Replaced(out, secrets[k]);
      }
    }
    assert secrets[..|secrets|] == secrets;
    if |out| > limit {
      out := out[..limit];
    }
  }

  // ---- when a secret can come back -----------------------------------------------------------------

  /** With the secret `k` places behind the start of the mark, the two agree wherever they overlap. */
  predicate AgreesAt(s: string, k: int) {
    forall j :: 0 <= j < |s| && 0 <= k + j < |MARK| ==> s[j] == MARK[k + j]
  }

  /** The secret fits over the mark, or over one of its edges. */
  ghost predicate Collides(s: string) {
    exists k :: -|s| < k < |MARK| && AgreesAt(s, k)
  }

  ghost predicate Clean(s: string) {
    s != "" && !Collides(s)
  }

  /** An occurrence that touches the mark between two texts. */
  lemma TouchesMark(before: string, after: string, s: string, i: nat)
    requires At(before + MARK + after, s, i) && |before| < i + |s| && i < |before| + |MARK|
    ensures Collides(s)
  {
    var (whole, k) := (before + MARK + after, i - |before|);
    forall j | 0 <= j < |s| && 0 <= k + j < |MARK| ensures s[j] == MARK[k + j] {
      assert s[j] == whole[i + j];
    }
    assert AgreesAt(s, k);
  }

  /** What occurs in texts joined by marks, without touching a mark, occurs in one of the texts. */
  lemma {:induction false} InOnePart(parts: seq<string>, s: string)
    requires Clean(s) && Contains(Join(parts, MARK), s)
    ensures exists k :: 0 <= k < |parts| && Contains(parts[k], s)
  {
    hide Collides;
    var i: nat :| At(Join(parts, MARK), s, i);
    if |parts| == 1 {
      assert Contains(parts[0], s);
    } else if |parts| > 1 {
      var (first, rest) := (parts[0], Join(parts[1..], MARK));
      assert Join(parts, MARK) == first + MARK + rest;
      if i + |s| <= |first| {
        forall j | 0 <= j < |s| ensures s[j] == first[i + j] { assert (first + MARK + rest)[i + j] == first[i + j]; }
        assert At(first, s, i);
      } else if i < |first| + |MARK| {
        TouchesMark(first, rest, s, i);
      } else {
        var o := |first| + |MARK|;
        forall j | 0 <= j < |s| ensures s[j] == rest[i - o + j] { assert (first + MARK + rest)[i + j] == rest[i - o + j]; }
        assert At(rest, s, i - o);
        InOnePart(parts[1..], s);
        var k :| 0 <= k < |parts[1..]| && Contains(parts[1..][k], s);
        assert parts[k + 1] == parts[1..][k];
      }
    }
  }

  /** One replacement, of whatever secret, brings in no clean string; replacing it removes it. */
  lemma ReplacedHasNo(text: string, secret: string, s: string)
    requires secret != "" && Clean(s) && (s == secret || !Contains(text, s))
    ensures !Contains(Replaced(text, secret), s)
  {
    hide Clean;
    if Contains(Replaced(text, secret), s) {
      InOnePart(Split(text, secret), s);
      var k :| 0 <= k < |Split(text, secret)| && Contains(Split(text, secret)[k], s);
      SplitPieces(text, secret, 0, k);
      if s != secret {
        var a: nat :| At(text, Split(text, secret)[k], a);
        ContainsIn(text, Split(text, secret)[k], a, s);
      }
    }
  }

  lemma {:induction false} ReplacedAllHasNo(text: string, secrets: seq<string>, s: string)
    requires Clean(s) && (s in secrets || !Contains(text, s))
    ensures !Contains(ReplacedAll(text, secrets), s)
    decreases |secrets|
  {
    if secrets != [] {
      var next := if secrets[0] == "" then text else Replaced(text, secrets[0]);
      if s == secrets[0] || !Contains(text, s) {
        if secrets[0] != "" { ReplacedHasNo(text, secrets[0], s); }
        ReplacedAllHasNo(next, secrets[1..], s);
      } else {
        assert s in secrets[1..];
        ReplacedAllHasNo(next, secrets[1..], s);
      }
    }
  }

  lemma TruncatedHasNo(text: string, limit: nat, s: string)
    requires !Contains(text, s)
    ensures !Contains(Truncated(text, limit), s)
  {
    var out := Truncated(text, limit);
    AtSlice(text, out, 0);
    if Contains(out, s) {
      ContainsIn(text, out, 0, s);
    }
  }

  // ---- how it comes back -----------------------------------------------------------------------------

  lemma ReplacedAbsent(text: string, secret: string)
    requires secret != "" && !Contains(text, secret)
    ensures Replaced(text, secret) == text
  {
    assert Find(text, secret, 0).None?;
    assert text[0..] == text && Split(text, secret) == [text];
  }

  lemma ReplacedOnce(pre: string, t: string, suf: string)
    requires t != "" && |suf| < |t| && forall i: nat | i < |pre| :: !At(pre + t + suf, t, i)
    ensures Replaced(pre + t + suf, t) == pre + MARK + suf
  {
    SplitOnce(pre, t, suf);
    assert [pre, suf][1..] == [suf];
    assert Join([pre, suf], MARK) == pre + MARK + suf;
  }

  lemma SplitOnce(pre: string, t: string, suf: string)
    requires t != "" && |suf| < |t| && forall i: nat | i < |pre| :: !At(pre + t + suf, t, i)
    ensures Split(pre + t + suf, t) == [pre, suf]
  {
    hide At;
    hide Find;
    hide SplitFrom;
    var text := pre + t + suf;
    ThreePieces(pre, t, suf);
    FindIs(text, t, 0, |pre|);
    NoRoom(text, t, |pre| + |t|);
    SplitStep(text, t, pre, 0);
    SplitLast(text, t, suf, |pre| + |t|);
  }

  lemma ThreePieces(pre: string, t: string, suf: string)
    ensures At(pre + t + suf, pre, 0) && At(pre + t + suf, t, |pre|) && At(pre + t + suf, suf, |pre| + |t|)
  {
    var text := pre + t + suf;
    AtSlice(text, text, 0);
    hide At;
    AtConcat(text, pre + t, suf, 0);
    AtConcat(text, pre, t, 0);
  }

  lemma NoRoom(text: string, t: string, from: nat)
    requires t != "" && from <= |text| < from + |t|
    ensures Find(text, t, from).None?
  {
  }

  lemma OtherChar(a: char, b: char, c: char, d: char) returns (x: char)
    ensures x != a && x != b && x != c && x != d
  {
    x := if 'v' !in [a, b, c, d] then 'v' else if 'w' !in [a, b, c, d] then 'w' else if 'x' !in [a, b, c, d] then 'x'
         else if 'y' !in [a, b, c, d] then 'y' else 'z';
  }

  /** What sticks out of the mark in front and behind. */
  function Front(s: string, k: int): string
    requires -|s| < k
  {
    if k < 0 then s[..-k] else ""
  }

  function Rear(s: string, k: int): string
    requires k < |MARK|
  {
    if k + |s| > |MARK| && |MARK| - k <= |s| then s[|MARK| - k..] else ""
  }

  lemma MarkMakesSecret(s: string, k: int)
    requires s != "" && -|s| < k < |MARK| && AgreesAt(s, k)
    ensures Contains(Front(s, k) + MARK + Rear(s, k), s)
  {
    var (pre, suf) := (Front(s, k), Rear(s, k));
    var (whole, p) := (pre + MARK + suf, if k < 0 then 0 else k);
    forall j | 0 <= j < |s| ensures s[j] == whole[p + j] {
      if 0 <= k + j < |MARK| { assert whole[p + j] == MARK[k + j]; }
    }
    assert At(whole, s, p);
  }

  /** A text and a second secret that leave just the ends of `s` around a mark. */
  lemma CollidingSecretSurvives(s: string) returns (text: string, t: string)
    requires s != "" && Collides(s)
    ensures Contains(ReplacedAll(text, [s, t]), s)
  {
    hide AgreesAt;
    hide Front;
    hide Rear;
    hide Replaced;
    hide ReplacedAll;
    hide At;
    var k :| -|s| < k < |MARK| && AgreesAt(s, k);
    var (pre, suf) := (Front(s, k), Rear(s, k));
    EndsAreShort(s, k);
    var c := OtherChar(s[0], s[|s| - 1], if pre == "" then 'v' else pre[|pre| - 1], if suf == "" then 'v' else suf[0]);
    t := seq(|s|, _ => c);
    text := pre + t + suf;
    forall i: nat ensures !At(text, s, i) { NoneOfIt(pre, t, suf, s, c, i); }
    ReplacedAbsent(text, s);
    forall i: nat | i < |pre| ensures !At(text, t, i) { NotEarlier(pre, t, suf, c, i); }
    ReplacedOnce(pre, t, suf);
    MarkMakesSecret(s, k);
    ReplacedTwice(text, s, t);
  }

  lemma EndsAreShort(s: string, k: int)
    requires s != "" && -|s| < k < |MARK|
    ensures |Front(s, k)| < |s| && |Rear(s, k)| < |s|
  {
  }

  lemma ReplacedTwice(text: string, s: string, t: string)
    requires s != "" && t != ""
    ensures ReplacedAll(text, [s, t]) == Replaced(Replaced(text, s), t)
  {
    hide Replaced;
    var once := Replaced(text, s);
    assert [s, t][1..] == [t] && [t][1..] == [];
    assert ReplacedAll(once, [t]) == ReplacedAll(Replaced(once, t), []);
    assert ReplacedAll(text, [s, t]) == ReplacedAll(once, [t]);
  }

  lemma NoneOfIt(pre: string, t: string, suf: string, s: string, c: char, i: nat)
    requires s != "" && |pre| < |s| && |suf| < |s| && t == seq(|s|, _ => c) && c != s[0] && c != s[|s| - 1]
    ensures !At(pre + t + suf, s, i)
  {
    var text := pre + t + suf;
    if i + |s| <= |text| {
      if i < |pre| {
        assert text[i + (|s| - 1)] == c;
      } else {
        assert text[i + 0] == c;
      }
    }
  }

  lemma NotEarlier(pre: string, t: string, suf: string, c: char, i: nat)
    requires i < |pre| <= |t| && (forall j :: 0 <= j < |t| ==> t[j] == c) && pre[|pre| - 1] != c
    ensures !At(pre + t + suf, t, i)
  {
    var text := pre + t + suf;
    assert text[i + (|pre| - 1 - i)] == pre[|pre| - 1];
    assert t[|pre| - 1 - i] == c;
  }

  /** A secret is kept out of every message, whatever the text, the other secrets, their order and the limit, if
      and only if it does not collide with the mark. */
  lemma ScrubRemovesIff(s: string)
    requires s != ""
    ensures (forall text: string, secrets: seq<string>, limit: nat :: s in secrets ==> !Contains(Scrubbed(text, secrets, limit), s))
       <==> !Collides(s)
  {
    if Collides(s) {
      var text, t := CollidingSecretSurvives(s);
      assert s in [s, t];
      assert Scrubbed(text, [s, t], |ReplacedAll(text, [s, t])|) == ReplacedAll(text, [s, t]);
    } else {
      forall text: string, secrets: seq<string>, limit: nat | s in secrets ensures !Contains(Scrubbed(text, secrets, limit), s) {
        ReplacedAllHasNo(text, secrets, s);
        TruncatedHasNo(ReplacedAll(text, secrets), limit, s);
      }
    }
  }

  lemma EdgesAreBrackets(s: string, k: int)
    requires -|s| < k < |MARK| && AgreesAt(s, k)
    ensures (k <= 0 ==> '[' in s) && (k + |s| >= |MARK| ==> ']' in s)
  {
    if k <= 0 { assert s[-k] == MARK[0]; }
    if k + |s| >= |MARK| { assert s[|MARK| - 1 - k] == MARK[|MARK| - 1]; }
  }

  /** Without brackets the condition is that the secret is no piece of the replacement word. */
  lemma BracketlessCollidesIff(s: string)
    requires s != "" && '[' !in s && ']' !in s
    ensures Collides(s) <==> Contains(WORD, s)
  {
    if Collides(s) {
      var k :| -|s| < k < |MARK| && AgreesAt(s, k);
      EdgesAreBrackets(s, k);
      forall j | 0 <= j < |s| ensures s[j] == WORD[k - 1 + j] { assert s[j] == MARK[k + j]; }
      assert At(WORD, s, k - 1);
    }
    if i: nat :| At(WORD, s, i) {
      forall j | 0 <= j < |s| && 0 <= i + 1 + j < |MARK| ensures s[j] == MARK[i + 1 + j] { assert s[j] == WORD[i + j]; }
      assert AgreesAt(s, i + 1);
    }
  }

  /** A secret with a bracket can come back across the edge of the mark. */
  lemma BracketSecretSurvives()
    ensures Contains(Scrubbed("aa[", ["a["], 2000), "a[")
  {
    assert "a["[1] != "aa["[1] && At("aa[", "a[", 1);
    FindIs("aa[", "a[", 0, 1);
    assert "aa["[0..1] == "a" && "aa["[3..] == "";
    assert SplitFrom("aa[", "a[", 3) == [""];
    assert Split("aa[", "a[") == ["a", ""];
    assert Join(["a", ""], MARK) == "a" + MARK + "" by { assert ["a", ""][1..] == [""]; }
    assert ReplacedAll("aa[", ["a["]) == "a[redacted]";
    assert At("a[redacted]", "a[", 0);
  }
}
