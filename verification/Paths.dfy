/** Slash-separated paths: segments and ancestors. */
module Paths {
  import opened Seqs

  const SLASH: string := "/"

  function Segments(path: string): (parts: seq<string>)
    ensures parts != []
  {
    Split(path, SLASH)
  }

  predicate NoSlash(parts: seq<string>) {
    forall k :: 0 <= k < |parts| ==> '/' !in parts[k]
  }

  lemma SegmentsHaveNoSlash(path: string)
    ensures NoSlash(Segments(path))
  {
    hide SplitFrom;
    hide At;
    forall k | 0 <= k < |Segments(path)| ensures '/' !in Segments(path)[k] {
      SplitPieces(path, SLASH, 0, k);
      NoSlashWithin(Segments(path)[k]);
    }
  }

  lemma NoSlashWithin(piece: string)
    requires !Contains(piece, SLASH)
    ensures '/' !in piece
  {
    if i: nat :| i < |piece| && piece[i] == '/' { assert At(piece, SLASH, i); }
  }

  lemma NoSlashHere(s: string, p: string, from: nat, i: nat)
    requires At(s, p, from) && '/' !in p && from <= i < from + |p|
    ensures !At(s, SLASH, i)
  {
    assert p[i - from] == s[from + (i - from)];
    assert SLASH[0] != s[i + 0];
  }

  lemma LastPiece(s: string, p: string, from: nat)
    requires At(s, p, from) && '/' !in p && |s| == from + |p|
    ensures SplitFrom(s, SLASH, from) == [p]
  {
    forall i: nat | from <= i ensures !At(s, SLASH, i) {
      if i < |s| { NoSlashHere(s, p, from, i); }
    }
    SplitLast(s, SLASH, p, from);
  }

  lemma FirstPiece(s: string, p: string, from: nat)
    requires At(s, p + SLASH, from) && '/' !in p
    ensures from + |p| + 1 <= |s| && SplitFrom(s, SLASH, from) == [p] + SplitFrom(s, SLASH, from + |p| + 1)
  {
    AtConcat(s, p, SLASH, from);
    forall i: nat | from <= i < from + |p| ensures !At(s, SLASH, i) {
      NoSlashHere(s, p, from, i);
    }
    FindIs(s, SLASH, from, from + |p|);
    SplitStep(s, SLASH, p, from);
  }

  lemma {:induction false} SplitJoinFrom(s: string, parts: seq<string>, from: nat)
    requires parts != [] && NoSlash(parts) && At(s, Join(parts, SLASH), from) && |s| == from + |Join(parts, SLASH)|
    ensures SplitFrom(s, SLASH, from) == parts
    decreases |parts|
  {
    hide At;
    hide SplitFrom;
    var p := parts[0];
    if |parts| == 1 {
      LastPiece(s, p, from);
      assert parts == [p];
    } else {
      var rest := Join(parts[1..], SLASH);
      AtConcat(s, p + SLASH, rest, from);
      FirstPiece(s, p, from);
      SplitJoinFrom(s, parts[1..], from + |p| + 1);
      assert parts == [p] + parts[1..];
    }
  }

  /** Joining segments and splitting again gives the same segments. */
  lemma SegmentsOfJoin(parts: seq<string>)
    requires parts != [] && NoSlash(parts)
    ensures Segments(Join(parts, SLASH)) == parts
  {
    AtSlice(Join(parts, SLASH), Join(parts, SLASH), 0);
    SplitJoinFrom(Join(parts, SLASH), parts, 0);
  }

  /** `"/".join(parts[:i])` for the segments of a path. */
  function Ancestor(path: string, i: nat): string
    requires 1 <= i <= |Segments(path)|
  {
    Join(Segments(path)[..i], SLASH)
  }

  lemma SegmentsOfAncestor(path: string, i: nat)
    requires 1 <= i <= |Segments(path)|
    ensures Segments(Ancestor(path, i)) == Segments(path)[..i]
  {
    SegmentsHaveNoSlash(path);
    SegmentsOfJoin(Segments(path)[..i]);
  }

  /** The ancestors of an ancestor are the shorter ancestors. */
  lemma AncestorOfAncestor(path: string, i: nat, j: nat)
    requires 1 <= j <= i <= |Segments(path)|
    ensures |Segments(Ancestor(path, i))| == i && Ancestor(Ancestor(path, i), j) == Ancestor(path, j)
  {
    SegmentsOfAncestor(path, i);
    assert Segments(path)[..i][..j] == Segments(path)[..j];
  }
}
