/** Well-formed UTF-8, after the grammar in section 4 of RFC 3629. */
module Utf8 {
  import opened Bytes

  predicate Tail(s: Bytes, i: nat) {
    i < |s| && 0x80 <= s[i] <= 0xBF
  }

  predicate Between(s: Bytes, i: nat, lo: Byte, hi: Byte) {
    i < |s| && lo <= s[i] <= hi
  }

  /** The length of the well-formed character at `i`, or 0 when there is none. */
  function CharLen(s: Bytes, i: nat): (n: nat)
    requires i < |s|
    ensures n <= 4 && i + n <= |s|
  {
    var b := s[i];
    if b <= 0x7F then 1
    else if 0xC2 <= b <= 0xDF && Tail(s, i + 1) then 2
    else if ((b == 0xE0 && Between(s, i + 1, 0xA0, 0xBF)) || (0xE1 <= b <= 0xEC && Tail(s, i + 1))
             || (b == 0xED && Between(s, i + 1, 0x80, 0x9F)) || (0xEE <= b <= 0xEF && Tail(s, i + 1))) && Tail(s, i + 2) then 3
    else if ((b == 0xF0 && Between(s, i + 1, 0x90, 0xBF)) || (0xF1 <= b <= 0xF3 && Tail(s, i + 1))
             || (b == 0xF4 && Between(s, i + 1, 0x80, 0x8F))) && Tail(s, i + 2) && Tail(s, i + 3) then 4
    else 0
  }

  /** `s[from:]` is a sequence of well-formed characters. */
  predicate ValidFrom(s: Bytes, from: nat)
    requires from <= |s|
    decreases |s| - from
  {
    from == |s| || (CharLen(s, from) > 0 && ValidFrom(s, from + CharLen(s, from)))
  }

  predicate Valid(s: Bytes) {
    ValidFrom(s, 0)
  }

  /** A character that fits into a prefix is the same character there. */
  lemma CharInPrefix(s: Bytes, k: nat, i: nat)
    requires i < k <= |s|
    ensures 0 < CharLen(s, i) <= k - i ==> CharLen(s[..k], i) == CharLen(s, i)
    ensures CharLen(s[..k], i) > 0 ==> CharLen(s, i) == CharLen(s[..k], i)
  {
    var t := s[..k];
    assert forall j :: 0 <= j < k ==> t[j] == s[j];
  }

  /** Between `from` and `n` there is a cut at a character's end, at most three bytes before `n`. */
  lemma {:induction false} CutNear(s: Bytes, from: nat, n: nat) returns (b: nat)
    requires from <= n <= |s| && ValidFrom(s, from)
    ensures from <= b <= n <= b + 3 && ValidFrom(s[..b], from)
    ensures from < n && CharLen(s, from) <= n - from ==> b > from
    decreases n - from
  {
    if from == n || CharLen(s, from) > n - from {
      b := from;
    } else {
      var next := from + CharLen(s, from);
      b := CutNear(s, next, n);
      CharInPrefix(s, b, from);
    }
  }

  /** No nonempty prefix is valid unless it has the whole first character. */
  lemma FirstCharNeeded(s: Bytes, k: nat)
    requires 0 < k <= |s| && Valid(s[..k])
    ensures 0 < CharLen(s, 0) <= k
  {
    CharInPrefix(s, k, 0);
  }

  // ---- the characters that the bytes encode --------------------------------------------------------

  /** A character's number: up to 0x10FFFF, and no surrogate. */
  predicate Scalar(c: bv32) {
    c <= 0x10FFFF && !(0xD800 <= c <= 0xDFFF)
  }

  /** Six bits of a character's number, in a byte that continues a character. */
  function Continuation(bits: bv32): Byte {
    0x80 | ((bits & 0x3F) as Byte)
  }

  function Encode(c: bv32): (r: Bytes)
    requires Scalar(c)
    ensures 1 <= |r| <= 4
  {
    if c <= 0x7F then [c as Byte]
    else if c <= 0x7FF then [0xC0 | ((c >> 6) as Byte), Continuation(c)]
    else if c <= 0xFFFF then [0xE0 | ((c >> 12) as Byte), Continuation(c >> 6), Continuation(c)]
    else [0xF0 | ((c >> 18) as Byte), Continuation(c >> 12), Continuation(c >> 6), Continuation(c)]
  }

  ghost predicate Characters(cs: seq<bv32>) {
    forall k :: 0 <= k < |cs| ==> Scalar(cs[k])
  }

  function EncodeAll(cs: seq<bv32>): Bytes
    requires Characters(cs)
  {
    if cs == [] then [] else Encode(cs[0]) + EncodeAll(cs[1..])
  }

  /** An encoded character is well-formed, whatever follows. */
  lemma EncodedIsWellFormed(c: bv32, rest: Bytes)
    requires Scalar(c)
    ensures CharLen(Encode(c) + rest, 0) == |Encode(c)|
  {
  }

  lemma OfTwo(a: Byte, b: Byte) returns (c: bv32)
    requires 0xC2 <= a <= 0xDF && 0x80 <= b <= 0xBF
    ensures 0x7F < c <= 0x7FF && Encode(c) == [a, b]
  {
    c := ((a & 0x1F) as bv32 << 6) | (b & 0x3F) as bv32;
  }

  lemma OfThree(a: Byte, b: Byte, d: Byte) returns (c: bv32)
    requires 0xE0 <= a <= 0xEF && 0x80 <= b <= 0xBF && 0x80 <= d <= 0xBF && (a == 0xE0 ==> 0xA0 <= b) && (a == 0xED ==> b <= 0x9F)
    ensures 0x7FF < c <= 0xFFFF && Scalar(c) && Encode(c) == [a, b, d]
  {
    c := ((a & 0x0F) as bv32 << 12) | ((b & 0x3F) as bv32 << 6) | (d & 0x3F) as bv32;
  }

  lemma OfFour(a: Byte, b: Byte, d: Byte, e: Byte) returns (c: bv32)
    requires 0xF0 <= a <= 0xF4 && 0x80 <= b <= 0xBF && 0x80 <= d <= 0xBF && 0x80 <= e <= 0xBF
    requires (a == 0xF0 ==> 0x90 <= b) && (a == 0xF4 ==> b <= 0x8F)
    ensures 0xFFFF < c && Scalar(c) && Encode(c) == [a, b, d, e]
  {
    c := ((a & 0x07) as bv32 << 18) | ((b & 0x3F) as bv32 << 12) | ((d & 0x3F) as bv32 << 6) | (e & 0x3F) as bv32;
  }

  /** A well-formed character encodes some number. */
  lemma WellFormedIsEncoded(s: Bytes, i: nat) returns (c: bv32)
    requires i < |s| && CharLen(s, i) > 0
    ensures Scalar(c) && Encode(c) == s[i..i + CharLen(s, i)]
  {
    var n := CharLen(s, i);
    if n == 1 {
      c := s[i] as bv32;
      assert Encode(c) == [s[i]];
    } else if n == 2 {
      c := OfTwo(s[i], s[i + 1]);
    } else if n == 3 {
      c := OfThree(s[i], s[i + 1], s[i + 2]);
    } else {
      c := OfFour(s[i], s[i + 1], s[i + 2], s[i + 3]);
    }
  }

  lemma CharLenBehind(s: Bytes, from: nat, i: nat)
    requires from + i < |s|
    ensures CharLen(s[from..], i) == CharLen(s, from + i)
  {
    assert forall j :: 0 <= j < |s| - from ==> s[from..][j] == s[from + j];
  }

  /** A text is valid from some place on if and only if what stands there is the concatenation of encoded
      characters. */
  lemma ValidFromIff(s: Bytes, from: nat)
    requires from <= |s|
    ensures ValidFrom(s, from) <==> exists cs :: Characters(cs) && EncodeAll(cs) == s[from..]
  {
    if ValidFrom(s, from) { var _ := Decoded(s, from); }
    if cs :| Characters(cs) && EncodeAll(cs) == s[from..] {
      EncodedIsValid(s, from, cs);
    }
  }

  lemma {:induction false} Decoded(s: Bytes, from: nat) returns (cs: seq<bv32>)
    requires from <= |s| && ValidFrom(s, from)
    ensures Characters(cs) && EncodeAll(cs) == s[from..]
    decreases |s| - from
  {
    hide CharLen;
    hide Encode;
    hide Scalar;
    if from == |s| {
      cs := [];
    } else {
      var c := WellFormedIsEncoded(s, from);
      var n := CharLen(s, from);
      var rest := Decoded(s, from + n);
      cs := [c] + rest;
      assert cs[1..] == rest;
      assert s[from..] == s[from..from + n] + s[from + n..];
    }
  }

  lemma {:induction false} EncodedIsValid(s: Bytes, from: nat, cs: seq<bv32>)
    requires from <= |s| && Characters(cs) && EncodeAll(cs) == s[from..]
    ensures ValidFrom(s, from)
    decreases |cs|
  {
    hide CharLen;
    hide Encode;
    hide Scalar;
    if cs != [] {
      var rest := EncodeAll(cs[1..]);
      var n := |Encode(cs[0])|;
      EncodedIsWellFormed(cs[0], rest);
      CharLenBehind(s, from, 0);
      assert s[from + n..] == s[from..][n..] == rest;
      EncodedIsValid(s, from + n, cs[1..]);
    }
  }

  /** Well-formed UTF-8 is what encoding a sequence of characters gives, and nothing else. */
  lemma ValidIff(s: Bytes)
    ensures Valid(s) <==> exists cs :: Characters(cs) && EncodeAll(cs) == s
  {
    ValidFromIff(s, 0);
    assert s[0..] == s;
  }
}
