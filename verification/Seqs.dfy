/** Searching, splitting and joining sequences, as Python's and JavaScript's library calls do. */
module Seqs {
  import opened Wrappers

  /** `p` occurs in `s` at offset `i`: `s[i:i+len(p)] == p`. */
  predicate At<T(==)>(s: seq<T>, p: seq<T>, i: nat) {
    i + |p| <= |s| && forall j :: 0 <= j < |p| ==> p[j] == s[i + j]
  }

  ghost predicate Contains<T>(s: seq<T>, p: seq<T>) {
    exists i: nat :: At(s, p, i)
  }

  /** `s.find(p, from)`: the first occurrence at or after `from`. */
  function Find<T(==)>(s: seq<T>, p: seq<T>, from: nat): (r: Option<nat>)
    requires from <= |s|
    ensures r.Some? ==> from <= r.value && At(s, p, r.value) && forall i: nat :: from <= i < r.value ==> !At(s, p, i)
    ensures r.None? ==> forall i: nat :: from <= i ==> !At(s, p, i)
    decreases |s| - from
  {
    if At(s, p, from) then Some(from)
    else if from == |s| then None
    else Find(s, p, from + 1)
  }

  lemma FindIs<T>(s: seq<T>, p: seq<T>, from: nat, k: nat)
    requires from <= k && At(s, p, k) && forall i: nat :: from <= i < k ==> !At(s, p, i)
    ensures Find(s, p, from) == Some(k)
  {
    var r := Find(s, p, from);
    assert r.Some? && r.value <= k;
  }

  lemma AtSlice<T>(s: seq<T>, p: seq<T>, i: nat)
    ensures At(s, p, i) <==> i + |p| <= |s| && s[i..i + |p|] == p
  {
    if i + |p| <= |s| && s[i..i + |p|] == p {
      forall j | 0 <= j < |p| ensures p[j] == s[i + j] { assert s[i..i + |p|][j] == s[i + j]; }
    }
  }

  lemma AtConcat<T>(s: seq<T>, x: seq<T>, y: seq<T>, i: nat)
    ensures At(s, x + y, i) <==> At(s, x, i) && At(s, y, i + |x|)
  {
    if At(s, x + y, i) {
      forall j | 0 <= j < |x| ensures x[j] == s[i + j] { assert (x + y)[j] == x[j]; }
      forall j | 0 <= j < |y| ensures y[j] == s[i + |x| + j] { assert (x + y)[|x| + j] == y[j]; }
    }
  }

  lemma AtInside<T>(s: seq<T>, t: seq<T>, p: seq<T>, a: nat, i: nat)
    requires At(s, t, a) && i + |p| <= |t|
    ensures At(s, p, a + i) <==> At(t, p, i)
  {
    assert forall j :: i <= j < i + |p| ==> t[j] == s[a + j];
    forall j | 0 <= j < |p| ensures p[j] == t[i + j] <==> p[j] == s[a + i + j] { assert t[i + j] == s[a + (i + j)]; }
  }

  /** The pieces of `s[from:].split(p)`. */
  function SplitFrom<T(==)>(s: seq<T>, p: seq<T>, from: nat): (parts: seq<seq<T>>)
    requires p != [] && from <= |s|
    ensures parts != []
    decreases |s| - from
  {
    match Find(s, p, from)
    case None => [s[from..]]
    case Some(i) => [s[from..i]] + SplitFrom(s, p, i + |p|)
  }

  /** `s.split(p)`. */
  function Split<T(==)>(s: seq<T>, p: seq<T>): (parts: seq<seq<T>>)
    requires p != []
    ensures parts != []
  {
    SplitFrom(s, p, 0)
  }

  /** `text.lstrip()`, `text.rstrip()` and `text.strip()` for the given blanks. */
  function StripLeft<T>(s: seq<T>, blank: T -> bool): (r: seq<T>)
    ensures r == [] || !blank(r[0])
    ensures |r| <= |s| && r == s[|s| - |r|..] && forall i :: 0 <= i < |s| - |r| ==> blank(s[i])
  {
    if s != [] && blank(s[0]) then
      assert forall i :: 0 < i < |s| ==> s[i] == s[1..][i - 1];
      StripLeft(s[1..], blank)
    else s
  }

  function StripRight<T>(s: seq<T>, blank: T -> bool): (r: seq<T>)
    ensures r <= s && (r == [] || !blank(r[|r| - 1])) && forall i :: |r| <= i < |s| ==> blank(s[i])
  {
    if s != [] && blank(s[|s| - 1]) then StripRight(s[..|s| - 1], blank) else s
  }

  function Strip<T>(s: seq<T>, blank: T -> bool): (r: seq<T>)
    ensures r == [] || (!blank(r[0]) && !blank(r[|r| - 1]))
  {
    StripRight(StripLeft(s, blank), blank)
  }

  /** Stripping takes blanks off both ends and nothing else. */
  lemma StripTakesBlanks<T>(s: seq<T>, blank: T -> bool) returns (k: nat)
    ensures var r := Strip(s, blank);
            k + |r| <= |s| && r == s[k..k + |r|] && forall i :: 0 <= i < |s| && !(k <= i < k + |r|) ==> blank(s[i])
  {
    var (left, r) := (StripLeft(s, blank), Strip(s, blank));
    k := |s| - |left|;
    assert left == s[k..];
    forall i | k + |r| <= i < |s| ensures blank(s[i]) { assert left[i - k] == s[i]; }
  }

  /** `sep.join(parts)`. */
  function Join<T>(parts: seq<seq<T>>, sep: seq<T>): seq<T> {
    if parts == [] then []
    else if |parts| == 1 then parts[0]
    else parts[0] + sep + Join(parts[1..], sep)
  }

  /** A piece with the separator right behind it is split off. */
  lemma SplitStep<T>(s: seq<T>, p: seq<T>, piece: seq<T>, from: nat)
    requires p != [] && At(s, piece, from) && At(s, p, from + |piece|) && from + |piece| <= |s| && Find(s, p, from) == Some(from + |piece|)
    ensures from + |piece| + |p| <= |s| && SplitFrom(s, p, from) == [piece] + SplitFrom(s, p, from + |piece| + |p|)
  {
    AtSlice(s, piece, from);
    FitsIn(s, p, from + |piece|);
    hide At;
    hide Find;
  }

  /** What is left without a separator is the last piece. */
  lemma SplitLast<T>(s: seq<T>, p: seq<T>, piece: seq<T>, from: nat)
    requires p != [] && At(s, piece, from) && |s| == from + |piece| && Find(s, p, from) == None
    ensures SplitFrom(s, p, from) == [piece]
  {
    AtSlice(s, piece, from);
    hide At;
    hide Find;
    assert s[from..] == piece;
  }

  lemma {:induction false} JoinSplitFrom<T>(s: seq<T>, p: seq<T>, from: nat)
    requires p != [] && from <= |s|
    ensures Join(SplitFrom(s, p, from), p) == s[from..]
    decreases |s| - from
  {
    hide Find;
    hide At;
    match Find(s, p, from)
    case None =>
    case Some(i) =>
      AtSlice(s, p, i);
      FitsIn(s, p, i);
      var rest := SplitFrom(s, p, i + |p|);
      JoinSplitFrom(s, p, i + |p|);
      JoinCons(s[from..i], rest, p);
      assert s[from..] == s[from..i] + s[i..i + |p|] + s[i + |p|..];
  }

  lemma FitsIn<T>(s: seq<T>, p: seq<T>, i: nat)
    requires At(s, p, i)
    ensures i + |p| <= |s|
  {
  }

  lemma JoinCons<T>(first: seq<T>, rest: seq<seq<T>>, sep: seq<T>)
    requires rest != []
    ensures Join([first] + rest, sep) == first + sep + Join(rest, sep)
  {
    assert ([first] + rest)[1..] == rest;
  }

  /** Joining the pieces of a split gives the text back. */
  lemma JoinSplit<T>(s: seq<T>, p: seq<T>)
    requires p != []
    ensures Join(Split(s, p), p) == s
  {
    JoinSplitFrom(s, p, 0);
  }

  lemma ContainsIn<T>(s: seq<T>, t: seq<T>, a: nat, p: seq<T>)
    requires At(s, t, a) && Contains(t, p)
    ensures Contains(s, p)
  {
    var i: nat :| At(t, p, i);
    AtInside(s, t, p, a, i);
  }

  /** An occurrence of `p` cannot run across an element that `p` does not have. */
  lemma ContainsAround<T>(x: seq<T>, c: T, y: seq<T>, p: seq<T>)
    requires c !in p && Contains(x + [c] + y, p)
    ensures Contains(x, p) || Contains(y, p)
  {
    var s := x + [c] + y;
    var i: nat :| At(s, p, i);
    if i + |p| <= |x| {
      forall j | 0 <= j < |p| ensures p[j] == x[i + j] { assert s[i + j] == x[i + j]; }
      assert At(x, p, i);
    } else if i <= |x| {
      AtElement(s, p, i, |x|);
      assert false;
    } else {
      var k := i - |x| - 1;
      forall j | 0 <= j < |p| ensures p[j] == y[k + j] { assert s[i + j] == y[k + j]; }
      assert At(y, p, k);
    }
  }

  lemma AtElement<T>(s: seq<T>, p: seq<T>, i: nat, k: nat)
    requires At(s, p, i) && i <= k < i + |p|
    ensures s[k] in p
  {
    assert p[k - i] == s[i + (k - i)];
  }

  /** The pieces of a split do not have the separator, and are pieces of the text. */
  lemma {:induction false} SplitPieces<T>(s: seq<T>, p: seq<T>, from: nat, k: nat)
    requires p != [] && from <= |s| && k < |SplitFrom(s, p, from)|
    ensures !Contains(SplitFrom(s, p, from)[k], p)
    ensures exists a: nat :: At(s, SplitFrom(s, p, from)[k], a)
    decreases |s| - from
  {
    var hit := Find(s, p, from);
    var end := if hit.None? then |s| else hit.value;
    if k == 0 {
      var piece := s[from..end];
      assert SplitFrom(s, p, from)[0] == piece;
      AtSlice(s, piece, from);
      forall i: nat ensures !At(piece, p, i) {
        if i + |p| <= |piece| {
          AtInside(s, piece, p, from, i);
        }
      }
    } else {
      SplitPieces(s, p, end + |p|, k - 1);
    }
  }

  /** A pattern without the two fences lies in a joined part or inside the fenced separator. */
  lemma {:induction false} ContainsJoin<T>(parts: seq<seq<T>>, a: T, mid: seq<T>, b: T, p: seq<T>)
    requires p != [] && a !in p && b !in p && Contains(Join(parts, [a] + mid + [b]), p)
    ensures Contains(mid, p) || exists k :: 0 <= k < |parts| && Contains(parts[k], p)
  {
    var sep := [a] + mid + [b];
    if parts == [] {
      assert false;
    } else if |parts| > 1 {
      var rest := Join(parts[1..], sep);
      assert parts[0] + sep + rest == parts[0] + [a] + (mid + [b] + rest);
      ContainsAround(parts[0], a, mid + [b] + rest, p);
      if !Contains(parts[0], p) {
        ContainsAround(mid, b, rest, p);
        if !Contains(mid, p) {
          ContainsJoin(parts[1..], a, mid, b, p);
          var k :| 0 <= k < |parts[1..]| && Contains(parts[1..][k], p);
          assert parts[k + 1] == parts[1..][k];
        }
      }
    }
  }
}
