/** Multipart form data: the renderer that follows section 5.1.1 of RFC 2046 and section 4 of RFC 7578,
    and the registry's two splitters, one over `bytes.split` and one over marker positions in a mapped
    file. The round trips say that each splitter inverts the renderer. */
module Multipart {
  import opened Wrappers
  import opened Seqs
  import opened Bytes

  const CR: Byte := 13
  const LF: Byte := 10
  const CRLF: Bytes := [CR, LF]
  const BLANK: Bytes := [CR, LF, CR, LF]
  const DASHES: Bytes := [45, 45]

  type Name = string

  /** `name="..."` in a decoded header block. */
  type NameOf = Bytes -> Option<Name>

  function Marker(boundary: Bytes): Bytes {
    DASHES + boundary
  }

  predicate EndsWith(s: Bytes, p: Bytes) {
    |p| <= |s| && s[|s| - |p|..] == p
  }

  // ---- the renderer -----------------------------------------------------------------------

  datatype Part = Part(headers: Bytes, data: Bytes)

  /** What stands between a part's marker and the next one. */
  function Framed(p: Part): Bytes {
    CRLF + p.headers + BLANK + p.data + CRLF
  }

  function Render(boundary: Bytes, parts: seq<Part>): Bytes {
    if parts == [] then Marker(boundary) + DASHES + CRLF
    else Marker(boundary) + Framed(parts[0]) + Render(boundary, parts[1..])
  }

  predicate BoundaryOk(boundary: Bytes) {
    CR !in boundary && LF !in boundary
  }

  /** Header lines without an empty line, and without the line break that ends the last one. */
  ghost predicate HeaderBlock(h: Bytes) {
    !Contains(h, BLANK) && !EndsWith(h, CRLF)
  }

  ghost predicate PartOk(p: Part, boundary: Bytes) {
    HeaderBlock(p.headers) && !Contains(p.headers, Marker(boundary)) && !Contains(p.data, Marker(boundary))
  }

  /** The meaning of a form: the last part of each name. */
  function Fields(parts: seq<Part>, nameOf: NameOf, acc: map<Name, Bytes>): map<Name, Bytes> {
    if parts == [] then acc
    else
      var name := nameOf(parts[0].headers);
      Fields(parts[1..], nameOf, if name.None? then acc else acc[name.value := parts[0].data])
  }

  // ---- `parse_multipart` --------------------------------------------------------------------

  predicate Skipped(part: Bytes) {
    part in [[], DASHES + CRLF, DASHES, CRLF] || DASHES <= part
  }

  /** The part without its framing: one leading line break, then a trailing `--`, then a trailing line break. */
  function Unframed(part: Bytes): Bytes {
    var part := if CRLF <= part then part[2..] else part;
    var part := if EndsWith(part, DASHES) then part[..|part| - 2] else part;
    if EndsWith(part, CRLF) then part[..|part| - 2] else part
  }

  /** `part.partition(b"\r\n\r\n")`, and the name in the header block. */
  function Headed(part: Bytes, nameOf: NameOf): Option<(Name, Bytes)> {
    match Find(part, BLANK, 0)
    case None => None
    case Some(i) =>
      match nameOf(part[..i])
      case None => None
      case Some(name) => Some((name, part[i + 4..]))
  }

  function ParsePart(part: Bytes, nameOf: NameOf): Option<(Name, Bytes)> {
    if Skipped(part) then None else Headed(Unframed(part), nameOf)
  }

  function ParseParts(parts: seq<Bytes>, nameOf: NameOf, acc: map<Name, Bytes>): map<Name, Bytes> {
    if parts == [] then acc
    else
      var hit := ParsePart(parts[0], nameOf);
      ParseParts(parts[1..], nameOf, if hit.None? then acc else acc[hit.value.0 := hit.value.1])
  }

  method ParseMultipart(body: Bytes, boundary: Option<Bytes>, nameOf: NameOf) returns (out: Option<map<Name, Bytes>>)
    ensures out.None? <==> boundary.None?
    ensures out.Some? ==> out.value == ParseParts(Split(body, Marker(boundary.value)), nameOf, map[])
  {
    if boundary.None? { return None; }
    var parts := Split(body, Marker(boundary.value));
    var fields: map<Name, Bytes> := map[];
    for k := 0 to |parts|
      invariant ParseParts(parts[k..], nameOf, fields) == ParseParts(parts, nameOf, map[])
    {
      assert parts[k..][1..] == parts[k + 1..];
      var hit := ParsePart(parts[k], nameOf);
      if hit.Some? {
        fields := fields[hit.value.0 := hit.value.1];
      }
    }
    return Some(fields);
  }

  // ---- `extract_multipart_archive` ------------------------------------------------------------

  /** What decoding a metadata part gives; `Null` is JSON `null`, which the code takes for "no metadata". */
  datatype Json = Invalid | Null | Scalar | Object(doc: string)

  type Decode = Bytes -> Json

  datatype Extracted =
    | MissingBoundary
    | BadMetadata
    | PartsRequired
    | NotAnObject
    | Archive(doc: string)

  function Positions(s: Bytes, marker: Bytes, from: nat): (r: seq<nat>)
    requires marker != [] && from <= |s|
    ensures forall k :: 0 <= k < |r| ==> from <= r[k] && r[k] + |marker| <= |s|
    decreases |s| - from
  {
    match Find(s, marker, from)
    case None => []
    case Some(at) => [at] + Positions(s, marker, at + |marker|)
  }

  method MarkerPositions(mapped: Bytes, marker: Bytes) returns (found: seq<nat>)
    requires marker != []
    ensures found == Positions(mapped, marker, 0)
  {
    hide At;
    hide Find;
    found := [];
    var cursor := 0;
    while true
      invariant cursor <= |mapped|
      invariant found + Positions(mapped, marker, cursor) == Positions(mapped, marker, 0)
      decreases |mapped| - cursor
    {
      var at := Find(mapped, marker, cursor);
      if at.None? { return; }
      FitsIn(mapped, marker, at.value);
      found := found + [at.value];
      cursor := at.value + |marker|;
    }
  }

  /** `mapped[start:end]`, empty when the bounds cross. */
  function Span(s: Bytes, start: nat, end: nat): Bytes
    requires end <= |s|
  {
    if start <= end then s[start..end] else []
  }

  /** The archive is written block by block. */
  method CopySpan(mapped: Bytes, start: nat, end: nat) returns (out: Bytes)
    requires end <= |mapped|
    ensures out == Span(mapped, start, end)
  {
    out := [];
    var cursor := start;
    while cursor < end
      invariant if start <= end then start <= cursor <= end && out == mapped[start..cursor] else cursor == start && out == []
      decreases end - cursor
    {
      var stop := if cursor + 1024 * 1024 < end then cursor + 1024 * 1024 else end;
      out := out + mapped[cursor..stop];
      cursor := stop;
    }
  }

  /** The part behind the marker at `start`, up to `end`: its name and the bounds of its data. */
  function PartAt(s: Bytes, marker: Bytes, start: nat, end: nat, nameOf: NameOf): (r: Option<(Name, nat, nat)>)
    requires start + |marker| <= |s| && end <= |s|
    ensures r.Some? ==> r.value.2 <= |s|
  {
    var at := start + |marker|;
    if At(s, DASHES, at) then None
    else
      var at := if At(s, CRLF, at) then at + 2 else at;
      match Find(s, BLANK, at)
      case None => None
      case Some(headerEnd) =>
        match nameOf(s[at..headerEnd])
        case None => None
        case Some(name) =>
          Some((name, headerEnd + 4, if end >= 2 && At(s, CRLF, end - 2) then end - 2 else end))
  }

  /** What one call has collected: the decoded metadata and the archive file on disk. */
  datatype Draft = Draft(broken: bool, meta: Option<Json>, disk: Option<Bytes>)

  function Take(acc: Draft, name: Name, data: Bytes, decode: Decode): Draft {
    if acc.broken then acc
    else if name == "metadata" then
      if decode(data).Invalid? then acc.(broken := true) else acc.(meta := Some(decode(data)))
    else if name == "archive" then acc.(disk := Some(data))
    else acc
  }

  function Collect(s: Bytes, marker: Bytes, positions: seq<nat>, nameOf: NameOf, decode: Decode, acc: Draft): Draft
    requires forall k :: 0 <= k < |positions| ==> positions[k] + |marker| <= |s|
    decreases |positions|
  {
    if positions == [] then acc
    else
      var hit := PartAt(s, marker, positions[0], if |positions| > 1 then positions[1] else |s|, nameOf);
      Collect(s, marker, positions[1..], nameOf, decode,
              if hit.None? then acc else Take(acc, hit.value.0, Span(s, hit.value.1, hit.value.2), decode))
  }

  /** The result and the archive file that is left on disk. */
  function Conclude(d: Draft): (Extracted, Option<Bytes>) {
    if d.broken then (BadMetadata, d.disk)
    else if d.meta.None? || d.meta.value.Null? || d.disk.None? then (PartsRequired, None)
    else if !d.meta.value.Object? then (NotAnObject, None)
    else (Archive(d.meta.value.doc), d.disk)
  }

  const NOTHING := Draft(false, None, None)

  lemma {:induction false} BrokenStays(s: Bytes, marker: Bytes, positions: seq<nat>, nameOf: NameOf, decode: Decode, acc: Draft)
    requires forall k :: 0 <= k < |positions| ==> positions[k] + |marker| <= |s|
    requires acc.broken
    ensures Collect(s, marker, positions, nameOf, decode, acc) == acc
    decreases |positions|
  {
    if positions != [] { BrokenStays(s, marker, positions[1..], nameOf, decode, acc); }
  }

  method ExtractMultipart(spool: Bytes, boundary: Option<Bytes>, nameOf: NameOf, decode: Decode)
    returns (r: Extracted, disk: Option<Bytes>)
    ensures boundary.None? ==> r == MissingBoundary && disk.None?
    ensures boundary.Some? ==>
      (r, disk) == Conclude(Collect(spool, Marker(boundary.value), Positions(spool, Marker(boundary.value), 0), nameOf, decode, NOTHING))
  {
    hide Find;
    hide At;
    hide PartAt;
    hide Positions;
    if boundary.None? { return MissingBoundary, None; }
    var marker := Marker(boundary.value);
    var positions := MarkerPositions(spool, marker);
    var meta: Option<Json> := None;
    disk := None;
    ghost var all := Collect(spool, marker, positions, nameOf, decode, NOTHING);
    for index := 0 to |positions|
      invariant Collect(spool, marker, positions[index..], nameOf, decode, Draft(false, meta, disk)) == all
    {
      assert positions[index..][1..] == positions[index + 1..];
      var end := if index + 1 < |positions| then positions[index + 1] else |spool|;
      var hit := PartAt(spool, marker, positions[index], end, nameOf);
      if hit.Some? {
        var (name, dataStart, dataEnd) := hit.value;
        if name == "metadata" {
          var json := decode(Span(spool, dataStart, dataEnd));
          if json.Invalid? {
            BrokenStays(spool, marker, positions[index + 1..], nameOf, decode, Draft(true, meta, disk));
            return BadMetadata, disk;
          }
          meta := Some(json);
        } else if name == "archive" {
          var data := CopySpan(spool, dataStart, dataEnd);
          disk := Some(data);
        }
      }
    }
    if meta.None? || meta.value.Null? || disk.None? { return PartsRequired, None; }
    if !meta.value.Object? { return NotAnObject, None; }
    return Archive(meta.value.doc), disk;
  }

  /** What the parts mean to `extract_multipart_archive`. */
  function CollectParts(parts: seq<Part>, nameOf: NameOf, decode: Decode, acc: Draft): Draft {
    if parts == [] then acc
    else
      var name := nameOf(parts[0].headers);
      CollectParts(parts[1..], nameOf, decode, if name.None? then acc else Take(acc, name.value, parts[0].data, decode))
  }

  // ---- both splitters invert the renderer -----------------------------------------------------

  /** The text `s` holds the word `w` at `at`, cut into the pieces of a framed part. */
  lemma AtFramed(s: Bytes, p: Part, at: nat)
    requires At(s, Framed(p), at)
    ensures At(s, CRLF, at) && At(s, p.headers, at + 2) && At(s, BLANK, at + 2 + |p.headers|)
    ensures At(s, p.data, at + 6 + |p.headers|) && At(s, CRLF, at + 6 + |p.headers| + |p.data|)
  {
    AtConcat(s, CRLF + p.headers + BLANK + p.data, CRLF, at);
    AtConcat(s, CRLF + p.headers + BLANK, p.data, at);
    AtConcat(s, CRLF + p.headers, BLANK, at);
    AtConcat(s, CRLF, p.headers, at);
  }

  /** The empty line after a header block is the first one. */
  lemma BlankFound(s: Bytes, h: Bytes, at: nat)
    requires HeaderBlock(h) && At(s, h, at) && At(s, BLANK, at + |h|)
    ensures Find(s, BLANK, at) == Some(at + |h|)
  {
    forall i: nat | at <= i < at + |h| ensures !At(s, BLANK, i) {
      var k := i - at;
      if k + 4 <= |h| {
        AtInside(s, h, BLANK, at, k);
      } else if k + 2 == |h| {
        assert h[k..] != CRLF;
        assert h[k] == s[at + k] && h[k + 1] == s[at + (k + 1)];
        assert BLANK[0] == CR && BLANK[1] == LF;
      } else {
        assert BLANK[0] == s[at + |h| + 0] && BLANK[|h| - k] == LF;
      }
    }
    FindIs(s, BLANK, at, at + |h|);
  }

  /** No marker starts inside a piece without one whose last byte no marker has. */
  lemma MarkerFound(s: Bytes, piece: Bytes, marker: Bytes, at: nat)
    requires At(s, piece, at) && At(s, marker, at + |piece|) && !Contains(piece, marker)
    requires piece != [] && piece[|piece| - 1] !in marker
    ensures Find(s, marker, at) == Some(at + |piece|)
  {
    var last := |piece| - 1;
    assert piece[last] == s[at + last];
    forall i: nat | at <= i < at + |piece| ensures !At(s, marker, i) {
      if i - at + |marker| <= |piece| {
        AtInside(s, piece, marker, at, i - at);
      } else if At(s, marker, i) {
        AtElement(s, marker, i, at + last);
      }
    }
    FindIs(s, marker, at, at + |piece|);
  }

  /** A marker without the line break's bytes does not reach across one. */
  lemma NoMarkerAcross(x: Bytes, y: Bytes, m: Bytes)
    requires CR !in m && LF !in m && m != []
    requires !Contains(x, m) && !Contains(y, m)
    ensures !Contains(x + CRLF + y, m)
  {
    assert x + CRLF + y == x + [CR] + ([] + [LF] + y) && !Contains([], m);
    if Contains(x + CRLF + y, m) {
      ContainsAround(x, CR, [] + [LF] + y, m);
      ContainsAround([], LF, y, m);
    }
  }

  lemma FramedHasNoMarker(p: Part, boundary: Bytes)
    requires BoundaryOk(boundary) && PartOk(p, boundary)
    ensures !Contains(Framed(p), Marker(boundary))
  {
    var m := Marker(boundary);
    assert !Contains([], m);
    NoMarkerAcross([], p.headers, m);
    var a := [] + CRLF + p.headers;
    NoMarkerAcross(a, [], m);
    NoMarkerAcross(a + CRLF + [], p.data, m);
    var b := a + CRLF + [] + CRLF + p.data;
    NoMarkerAcross(b, [], m);
    assert Framed(p) == b + CRLF + [];
  }

  /** Where the first part of a rendered body is, and where the rest begins. */
  lemma AtRender(s: Bytes, boundary: Bytes, parts: seq<Part>, at: nat)
    requires BoundaryOk(boundary) && parts != [] && PartOk(parts[0], boundary)
    requires At(s, Render(boundary, parts), at)
    ensures var m := Marker(boundary); var next := at + |m| + |Framed(parts[0])|;
            && At(s, m, at) && At(s, Framed(parts[0]), at + |m|)
            && At(s, Render(boundary, parts[1..]), next) && At(s, m, next)
            && Find(s, m, at + |m|) == Some(next)
  {
    var m, rest := Marker(boundary), Render(boundary, parts[1..]);
    AtConcat(s, m + Framed(parts[0]), rest, at);
    AtConcat(s, m, Framed(parts[0]), at);
    AtMarker(s, boundary, parts[1..], at + |m| + |Framed(parts[0])|);
    FramedHasNoMarker(parts[0], boundary);
    assert Framed(parts[0])[|Framed(parts[0])| - 1] == LF;
    MarkerFound(s, Framed(parts[0]), m, at + |m|);
  }

  lemma AtMarker(s: Bytes, boundary: Bytes, parts: seq<Part>, at: nat)
    requires At(s, Render(boundary, parts), at)
    ensures At(s, Marker(boundary), at)
  {
    var m := Marker(boundary);
    if parts == [] {
      AtConcat(s, m + DASHES, CRLF, at);
      AtConcat(s, m, DASHES, at);
    } else {
      AtConcat(s, m + Framed(parts[0]), Render(boundary, parts[1..]), at);
      AtConcat(s, m, Framed(parts[0]), at);
    }
  }

  /** The closing marker, and what follows it: `--`, a line break, and the end of the text. With an empty
      boundary the `--` is itself one more marker, and the last one. */
  lemma AtEpilogue(s: Bytes, boundary: Bytes, at: nat)
    requires BoundaryOk(boundary) && At(s, Render(boundary, []), at) && |s| == at + |Render(boundary, [])|
    ensures var m := Marker(boundary); var end := at + |m|;
            && At(s, m, at) && At(s, DASHES, end) && At(s, CRLF, end + 2) && |s| == end + 4
            && Find(s, m, end) == (if boundary == [] then Some(end) else None)
            && (boundary == [] ==> Find(s, m, end + 2) == None)
  {
    var m := Marker(boundary);
    var end := at + |m|;
    AtConcat(s, m + DASHES, CRLF, at);
    AtConcat(s, m, DASHES, at);
    assert CRLF[0] == s[end + 2 + 0] && CRLF[1] == s[end + 2 + 1];
    forall i: nat | end <= i && (boundary != [] || i > end) ensures !At(s, m, i) {
      if At(s, m, i) {
        AtElement(s, m, i, if i <= end + 2 then end + 2 else end + 3);
      }
    }
    if boundary == [] { FindIs(s, m, end, end); }
  }

  function FramedParts(parts: seq<Part>): seq<Bytes> {
    if parts == [] then [] else [Framed(parts[0])] + FramedParts(parts[1..])
  }

  /** Pieces of a split that hold no part. */
  predicate Hollow(tail: seq<Bytes>) {
    forall k :: 0 <= k < |tail| ==> tail[k] in [[], DASHES + CRLF, CRLF]
  }

  /** Splitting after the first marker gives the framed parts, then pieces that hold no part. */
  lemma {:induction false} SplitRender(s: Bytes, boundary: Bytes, parts: seq<Part>, at: nat) returns (tail: seq<Bytes>)
    requires BoundaryOk(boundary) && forall k :: 0 <= k < |parts| ==> PartOk(parts[k], boundary)
    requires At(s, Render(boundary, parts), at) && |s| == at + |Render(boundary, parts)|
    ensures SplitFrom(s, Marker(boundary), at + |Marker(boundary)|) == FramedParts(parts) + tail && Hollow(tail)
    decreases |parts|
  {
    hide Find;
    hide At;
    hide Framed;
    hide Hollow;
    hide PartOk;
    hide SplitFrom;
    if parts == [] {
      tail := SplitEpilogue(s, boundary, at);
      assert FramedParts(parts) + tail == tail;
    } else {
      var f := Framed(parts[0]);
      var next := at + |Marker(boundary)| + |f|;
      AtRender(s, boundary, parts, at);
      tail := SplitRender(s, boundary, parts[1..], next);
      SplitStep(s, Marker(boundary), f, at + |Marker(boundary)|);
      assert FramedParts(parts) + tail == [f] + (FramedParts(parts[1..]) + tail);
    }
  }

  lemma SplitEpilogue(s: Bytes, boundary: Bytes, at: nat) returns (tail: seq<Bytes>)
    requires BoundaryOk(boundary) && At(s, Render(boundary, []), at) && |s| == at + |Render(boundary, [])|
    ensures SplitFrom(s, Marker(boundary), at + |Marker(boundary)|) == tail && Hollow(tail)
  {
    hide At;
    hide Find;
    hide Render;
    hide SplitFrom;
    var m := Marker(boundary);
    var end := at + |m|;
    AtEpilogue(s, boundary, at);
    if boundary == [] {
      AtNothing(s, end);
      SplitStep(s, m, [], end);
      SplitLast(s, m, CRLF, end + 2);
      tail := [[], CRLF];
    } else {
      AtConcat(s, DASHES, CRLF, end);
      SplitLast(s, m, DASHES + CRLF, end);
      tail := [DASHES + CRLF];
    }
  }

  lemma AtNothing(s: Bytes, at: nat)
    requires at <= |s|
    ensures At(s, [], at)
  {
  }

  lemma UnframedFramed(p: Part)
    ensures !Skipped(Framed(p)) && Unframed(Framed(p)) == p.headers + BLANK + p.data
  {
    var f, body := Framed(p), p.headers + BLANK + p.data;
    assert f[0] == CR && |f| >= 8;
    assert f[..2] == CRLF && f[2..] == body + CRLF;
    var g := body + CRLF;
    assert g[|g| - 2..][1] == LF && DASHES[1] != LF;
    assert g[|g| - 2..] == CRLF && g[..|g| - 2] == body;
  }

  lemma ParseFramed(p: Part, nameOf: NameOf)
    requires HeaderBlock(p.headers)
    ensures ParsePart(Framed(p), nameOf)
         == if nameOf(p.headers).None? then None else Some((nameOf(p.headers).value, p.data))
  {
    UnframedFramed(p);
    var body := p.headers + BLANK + p.data;
    AtConcat(body, p.headers + BLANK, p.data, 0);
    AtConcat(body, p.headers, BLANK, 0);
    BlankFound(body, p.headers, 0);
    assert body[..|p.headers|] == p.headers && body[|p.headers| + 4..] == p.data;
  }

  lemma {:induction false} ParseFramedParts(parts: seq<Part>, tail: seq<Bytes>, nameOf: NameOf, acc: map<Name, Bytes>)
    requires Hollow(tail) && forall k :: 0 <= k < |parts| ==> HeaderBlock(parts[k].headers)
    ensures ParseParts(FramedParts(parts) + tail, nameOf, acc) == Fields(parts, nameOf, acc)
    decreases |parts|
  {
    hide ParsePart;
    hide Framed;
    hide HeaderBlock;
    if parts != [] {
      ParseFramed(parts[0], nameOf);
      assert (FramedParts(parts) + tail)[1..] == FramedParts(parts[1..]) + tail;
      var name := nameOf(parts[0].headers);
      ParseFramedParts(parts[1..], tail, nameOf, if name.None? then acc else acc[name.value := parts[0].data]);
    } else {
      assert FramedParts(parts) + tail == tail;
      ParseHollow(tail, nameOf, acc);
    }
  }

  lemma {:induction false} ParseHollow(tail: seq<Bytes>, nameOf: NameOf, acc: map<Name, Bytes>)
    requires Hollow(tail)
    ensures ParseParts(tail, nameOf, acc) == acc
  {
    if tail != [] {
      assert Skipped(tail[0]);
      ParseHollow(tail[1..], nameOf, acc);
    }
  }

  /** `parse_multipart` inverts the renderer: each name gets the exact bytes of its last part. */
  lemma ParseRoundTrip(boundary: Bytes, parts: seq<Part>, nameOf: NameOf)
    requires BoundaryOk(boundary) && forall k :: 0 <= k < |parts| ==> PartOk(parts[k], boundary)
    ensures ParseParts(Split(Render(boundary, parts), Marker(boundary)), nameOf, map[]) == Fields(parts, nameOf, map[])
  {
    var m, s := Marker(boundary), Render(boundary, parts);
    AtSlice(s, s, 0);
    AtMarker(s, boundary, parts, 0);
    FindIs(s, m, 0, 0);
    var tail := SplitRender(s, boundary, parts, 0);
    var pieces := FramedParts(parts) + tail;
    assert Split(s, m) == [[]] + pieces;
    assert ([[]] + pieces)[1..] == pieces;
    ParseFramedParts(parts, tail, nameOf, map[]);
  }

  lemma BreakIsNotDashes(s: Bytes, at: nat)
    requires At(s, CRLF, at)
    ensures !At(s, DASHES, at)
  {
    assert CRLF[0] == s[at + 0] && DASHES[0] != CR;
  }

  /** The marker in front of a framed part yields that part's name and exact data. */
  lemma PartAtFramed(s: Bytes, marker: Bytes, p: Part, at: nat, nameOf: NameOf)
    requires HeaderBlock(p.headers) && At(s, marker, at) && At(s, Framed(p), at + |marker|)
    ensures var hit := PartAt(s, marker, at, at + |marker| + |Framed(p)|, nameOf);
            if nameOf(p.headers).None? then hit.None?
            else hit.Some? && hit.value.0 == nameOf(p.headers).value && Span(s, hit.value.1, hit.value.2) == p.data
  {
    hide Find;
    hide At;
    hide HeaderBlock;
    var start := at + |marker| + 2;
    AtFramed(s, p, at + |marker|);
    BreakIsNotDashes(s, at + |marker|);
    BlankFound(s, p.headers, start);
    AtSlice(s, p.headers, start);
    AtSlice(s, p.data, start + |p.headers| + 4);
  }

  /** The outcome of the mapped splitter over a list of markers. */
  lemma CollectStep(s: Bytes, marker: Bytes, at: nat, next: seq<nat>, nameOf: NameOf, decode: Decode, acc: Draft)
    requires at + |marker| <= |s| && forall k :: 0 <= k < |next| ==> next[k] + |marker| <= |s|
    ensures Collect(s, marker, [at] + next, nameOf, decode, acc)
         == var hit := PartAt(s, marker, at, if next != [] then next[0] else |s|, nameOf);
            Collect(s, marker, next, nameOf, decode,
                    if hit.None? then acc else Take(acc, hit.value.0, Span(s, hit.value.1, hit.value.2), decode))
  {
    assert ([at] + next)[1..] == next;
  }

  /** Extraction of a rendered body, from its first marker on. */
  lemma {:induction false} CollectRender(s: Bytes, boundary: Bytes, parts: seq<Part>, at: nat, nameOf: NameOf, decode: Decode, acc: Draft)
    requires BoundaryOk(boundary) && forall k :: 0 <= k < |parts| ==> PartOk(parts[k], boundary)
    requires At(s, Render(boundary, parts), at) && |s| == at + |Render(boundary, parts)|
    ensures var m := Marker(boundary);
            && Positions(s, m, at) != [] && Positions(s, m, at)[0] == at
            && Collect(s, m, Positions(s, m, at), nameOf, decode, acc) == CollectParts(parts, nameOf, decode, acc)
    decreases |parts|
  {
    hide Find;
    hide At;
    hide Framed;
    hide PartAt;
    if parts == [] {
      CollectEpilogue(s, boundary, at, nameOf, decode, acc);
    } else {
      var m, p := Marker(boundary), parts[0];
      var next := at + |m| + |Framed(p)|;
      var name := nameOf(p.headers);
      AtRender(s, boundary, parts, at);
      CollectRender(s, boundary, parts[1..], next, nameOf, decode, if name.None? then acc else Take(acc, name.value, p.data, decode));
      PositionsStep(s, m, at, next);
      PartAtFramed(s, m, p, at, nameOf);
      CollectStep(s, m, at, Positions(s, m, next), nameOf, decode, acc);
    }
  }

  lemma PositionsStep(s: Bytes, m: Bytes, at: nat, next: nat)
    requires m != [] && At(s, m, at) && Find(s, m, at + |m|) == Some(next)
    ensures Positions(s, m, at) == [at] + Positions(s, m, next)
  {
    hide Find;
    hide At;
    FindIs(s, m, at, at);
    FindIs(s, m, next, next);
  }

  lemma CollectEpilogue(s: Bytes, boundary: Bytes, at: nat, nameOf: NameOf, decode: Decode, acc: Draft)
    requires BoundaryOk(boundary) && At(s, Render(boundary, []), at) && |s| == at + |Render(boundary, [])|
    ensures var m := Marker(boundary);
            && Positions(s, m, at) != [] && Positions(s, m, at)[0] == at
            && Collect(s, m, Positions(s, m, at), nameOf, decode, acc) == acc
  {
    var m := Marker(boundary);
    var end := at + |m|;
    hide Find;
    hide At;
    hide Render;
    AtEpilogue(s, boundary, at);
    PositionsEpilogue(s, m, at, boundary == []);
    ClosingHoldsNoPart(s, m, at, if boundary == [] then end else |s|, nameOf);
    hide Positions;
    hide PartAt;
    CollectStep(s, m, at, Positions(s, m, at)[1..], nameOf, decode, acc);
    if boundary == [] {
      EpilogueHoldsNoPart(s, end, nameOf);
      CollectStep(s, m, end, [], nameOf, decode, acc);
    }
  }

  lemma ClosingHoldsNoPart(s: Bytes, m: Bytes, at: nat, end: nat, nameOf: NameOf)
    requires At(s, DASHES, at + |m|) && at + |m| <= |s| && end <= |s|
    ensures PartAt(s, m, at, end, nameOf) == None
  {
  }

  lemma PositionsEpilogue(s: Bytes, m: Bytes, at: nat, again: bool)
    requires m != [] && At(s, m, at)
    requires Find(s, m, at + |m|) == (if again then Some(at + |m|) else None)
    requires again ==> at + |m| + |m| <= |s| && Find(s, m, at + |m| + |m|) == None
    ensures Positions(s, m, at) == if again then [at, at + |m|] else [at]
  {
    hide Positions;
    hide At;
    hide Find;
    if again {
      PositionsStep(s, m, at, at + |m|);
      PositionsLast(s, m, at + |m|);
    } else {
      FitsIn(s, m, at);
      PositionsLast(s, m, at);
    }
  }

  lemma PositionsLast(s: Bytes, m: Bytes, at: nat)
    requires m != [] && At(s, m, at) && at + |m| <= |s| && Find(s, m, at + |m|) == None
    ensures Positions(s, m, at) == [at]
  {
    hide At;
    hide Find;
    FindIs(s, m, at, at);
    assert Positions(s, m, at + |m|) == [];
  }

  /** Behind the closing `--`, taken for a marker, a line break ends the text: no header block. */
  lemma EpilogueHoldsNoPart(s: Bytes, end: nat, nameOf: NameOf)
    requires At(s, CRLF, end + 2) && |s| == end + 4
    ensures PartAt(s, DASHES, end, |s|, nameOf) == None
  {
    BreakIsNotDashes(s, end + 2);
    assert Find(s, BLANK, end + 4).None?;
  }

  /** `extract_multipart_archive` inverts the renderer. */
  lemma ExtractRoundTrip(boundary: Bytes, parts: seq<Part>, nameOf: NameOf, decode: Decode)
    requires BoundaryOk(boundary) && forall k :: 0 <= k < |parts| ==> PartOk(parts[k], boundary)
    ensures var s := Render(boundary, parts); var m := Marker(boundary);
            Collect(s, m, Positions(s, m, 0), nameOf, decode, NOTHING) == CollectParts(parts, nameOf, decode, NOTHING)
  {
    var s := Render(boundary, parts);
    AtSlice(s, s, 0);
    CollectRender(s, boundary, parts, 0, nameOf, decode, NOTHING);
  }

  // ---- the two splitters agree -----------------------------------------------------------------

  ghost predicate Agree(d: Draft, fields: map<Name, Bytes>, decode: Decode) {
    && !d.broken
    && (d.meta.Some? <==> "metadata" in fields) && (d.meta.Some? ==> d.meta.value == decode(fields["metadata"]))
    && (d.disk.Some? <==> "archive" in fields) && (d.disk.Some? ==> d.disk.value == fields["archive"])
  }

  lemma {:induction false} CollectAgrees(parts: seq<Part>, nameOf: NameOf, decode: Decode, acc: Draft, fields: map<Name, Bytes>)
    requires Agree(acc, fields, decode)
    requires forall k :: 0 <= k < |parts| && nameOf(parts[k].headers) == Some("metadata") ==> !decode(parts[k].data).Invalid?
    ensures Agree(CollectParts(parts, nameOf, decode, acc), Fields(parts, nameOf, fields), decode)
    decreases |parts|
  {
    if parts != [] {
      var name := nameOf(parts[0].headers);
      CollectAgrees(parts[1..], nameOf, decode,
        if name.None? then acc else Take(acc, name.value, parts[0].data, decode),
        if name.None? then fields else fields[name.value := parts[0].data]);
    }
  }

  /** On every rendered form whose metadata parts decode, the mapped splitter returns the document that
      the other splitter's `metadata` bytes decode to, and writes its `archive` bytes. */
  lemma SplittersAgree(boundary: Bytes, parts: seq<Part>, nameOf: NameOf, decode: Decode)
    requires BoundaryOk(boundary) && forall k :: 0 <= k < |parts| ==> PartOk(parts[k], boundary)
    requires forall k :: 0 <= k < |parts| && nameOf(parts[k].headers) == Some("metadata") ==> !decode(parts[k].data).Invalid?
    ensures
      var s := Render(boundary, parts); var m := Marker(boundary);
      var fields := ParseParts(Split(s, m), nameOf, map[]);
      var (r, disk) := Conclude(Collect(s, m, Positions(s, m, 0), nameOf, decode, NOTHING));
      if "metadata" in fields && "archive" in fields && decode(fields["metadata"]).Object?
      then r == Archive(decode(fields["metadata"]).doc) && disk == Some(fields["archive"])
      else r in {PartsRequired, NotAnObject} && disk == None
  {
    ParseRoundTrip(boundary, parts, nameOf);
    ExtractRoundTrip(boundary, parts, nameOf, decode);
    CollectAgrees(parts, nameOf, decode, NOTHING, map[]);
  }

  // ---- what a failing call leaves on disk --------------------------------------------------------

  predicate Named(p: Part, nameOf: NameOf, name: Name) {
    nameOf(p.headers) == Some(name)
  }

  /** Part `k` is the first metadata part that does not decode. */
  ghost predicate FirstBad(parts: seq<Part>, nameOf: NameOf, decode: Decode, k: nat) {
    k < |parts| && Bad(parts[k], nameOf, decode) && forall j :: 0 <= j < k ==> !Bad(parts[j], nameOf, decode)
  }

  predicate Bad(p: Part, nameOf: NameOf, decode: Decode) {
    Named(p, nameOf, "metadata") && decode(p.data).Invalid?
  }

  ghost predicate ArchiveBefore(parts: seq<Part>, nameOf: NameOf, k: nat) {
    exists j :: 0 <= j < k && j < |parts| && Named(parts[j], nameOf, "archive")
  }

  lemma {:induction false} CollectBroken(parts: seq<Part>, nameOf: NameOf, decode: Decode, acc: Draft)
    requires acc.broken
    ensures CollectParts(parts, nameOf, decode, acc) == acc
    decreases |parts|
  {
    if parts != [] { CollectBroken(parts[1..], nameOf, decode, acc); }
  }

  lemma {:induction false} CollectAll(parts: seq<Part>, nameOf: NameOf, decode: Decode, acc: Draft)
    requires !acc.broken && forall k :: 0 <= k < |parts| ==> !Bad(parts[k], nameOf, decode)
    ensures !CollectParts(parts, nameOf, decode, acc).broken
    decreases |parts|
  {
    if parts != [] {
      var name := nameOf(parts[0].headers);
      CollectAll(parts[1..], nameOf, decode, if name.None? then acc else Take(acc, name.value, parts[0].data, decode));
    }
  }

  /** Up to the first metadata part that does not decode, the archive parts were written. */
  lemma {:induction false} CollectUpTo(parts: seq<Part>, nameOf: NameOf, decode: Decode, acc: Draft, k: nat)
    requires !acc.broken && FirstBad(parts, nameOf, decode, k)
    ensures var d := CollectParts(parts, nameOf, decode, acc);
            d.broken && (d.disk.Some? <==> acc.disk.Some? || ArchiveBefore(parts, nameOf, k))
    decreases |parts|
  {
    var name := nameOf(parts[0].headers);
    var next := if name.None? then acc else Take(acc, name.value, parts[0].data, decode);
    if k == 0 {
      CollectBroken(parts[1..], nameOf, decode, next);
    } else {
      BeforeShifts(parts, nameOf, k);
      assert !Bad(parts[0], nameOf, decode);
      CollectUpTo(parts[1..], nameOf, decode, next, k - 1);
    }
  }

  lemma BeforeShifts(parts: seq<Part>, nameOf: NameOf, k: nat)
    requires parts != [] && k > 0
    ensures ArchiveBefore(parts, nameOf, k) <==> Named(parts[0], nameOf, "archive") || ArchiveBefore(parts[1..], nameOf, k - 1)
  {
    hide Named;
    if ArchiveBefore(parts, nameOf, k) {
      var j :| 0 <= j < k && j < |parts| && Named(parts[j], nameOf, "archive");
      if j > 0 { assert Named(parts[1..][j - 1], nameOf, "archive"); }
    }
    if ArchiveBefore(parts[1..], nameOf, k - 1) {
      var j :| 0 <= j < k - 1 && j < |parts[1..]| && Named(parts[1..][j], nameOf, "archive");
      assert Named(parts[j + 1], nameOf, "archive");
    }
  }

  /** On a rendered form a failing call leaves an archive file if and only if some metadata part does not decode
      and an archive part stands before the first such part. */
  lemma LeavesFileIff(boundary: Bytes, parts: seq<Part>, nameOf: NameOf, decode: Decode)
    requires BoundaryOk(boundary) && forall k :: 0 <= k < |parts| ==> PartOk(parts[k], boundary)
    ensures
      var s := Render(boundary, parts); var m := Marker(boundary);
      var (r, disk) := Conclude(Collect(s, m, Positions(s, m, 0), nameOf, decode, NOTHING));
      && (r == BadMetadata <==> exists k: nat :: FirstBad(parts, nameOf, decode, k))
      && (!r.Archive? && disk.Some? <==> exists k: nat :: FirstBad(parts, nameOf, decode, k) && ArchiveBefore(parts, nameOf, k))
  {
    ExtractRoundTrip(boundary, parts, nameOf, decode);
    hide Collect;
    hide CollectParts;
    hide Bad;
    hide ArchiveBefore;
    if bad: nat :| bad < |parts| && Bad(parts[bad], nameOf, decode) {
      var k := FirstBadOf(parts, nameOf, decode, bad);
      CollectUpTo(parts, nameOf, decode, NOTHING, k);
      forall j: nat | FirstBad(parts, nameOf, decode, j) ensures j == k {}
    } else {
      CollectAll(parts, nameOf, decode, NOTHING);
    }
  }

  lemma FirstBadOf(parts: seq<Part>, nameOf: NameOf, decode: Decode, bad: nat) returns (k: nat)
    requires bad < |parts| && Bad(parts[bad], nameOf, decode)
    ensures FirstBad(parts, nameOf, decode, k)
  {
    hide Bad;
    k := 0;
    while !Bad(parts[k], nameOf, decode)
      invariant k <= bad && forall j :: 0 <= j < k ==> !Bad(parts[j], nameOf, decode)
      decreases bad - k
    {
      k := k + 1;
    }
  }

  /** A rendered form on which the call fails and leaves this file. */
  ghost predicate FailsLeaving(boundary: Bytes, parts: seq<Part>, nameOf: NameOf, decode: Decode, file: Bytes) {
    && BoundaryOk(boundary) && (forall k :: 0 <= k < |parts| ==> PartOk(parts[k], boundary))
    && var (s, m) := (Render(boundary, parts), Marker(boundary));
       Conclude(Collect(s, m, Positions(s, m, 0), nameOf, decode, NOTHING)) == (BadMetadata, Some(file))
  }

  /** An archive part, then metadata that does not decode: the archive stays on disk. */
  lemma ArchiveThenBadMetadata(boundary: Bytes, archive: Part, metadata: Part, nameOf: NameOf, decode: Decode)
    requires BoundaryOk(boundary) && PartOk(archive, boundary) && PartOk(metadata, boundary)
    requires Named(archive, nameOf, "archive") && Bad(metadata, nameOf, decode)
    ensures FailsLeaving(boundary, [archive, metadata], nameOf, decode, archive.data)
  {
    ExtractRoundTrip(boundary, [archive, metadata], nameOf, decode);
    hide Collect;
    hide Render;
    hide PartOk;
    assert [archive, metadata][1..] == [metadata] && [metadata][1..] == [];
    var kept := Draft(false, None, Some(archive.data));
    assert CollectParts([archive, metadata], nameOf, decode, NOTHING) == CollectParts([metadata], nameOf, decode, kept);
    assert CollectParts([metadata], nameOf, decode, kept) == CollectParts([], nameOf, decode, kept.(broken := true));
  }

  lemma SmallPartOk(h: Byte, d: Byte)
    requires h != CR && h != LF
    ensures PartOk(Part([h], [d]), [98])
  {
  }

  /** Such a form. */
  lemma BadMetadataLeavesArchive()
    ensures exists boundary, parts, nameOf, decode, file :: FailsLeaving(boundary, parts, nameOf, decode, file)
  {
    hide PartOk;
    hide FailsLeaving;
    var nameOf: NameOf := h => if h == [65] then Some("archive") else if h == [77] then Some("metadata") else None;
    var decode: Decode := _ => Invalid;
    SmallPartOk(65, 1);
    SmallPartOk(77, 2);
    ArchiveThenBadMetadata([98], Part([65], [1]), Part([77], [2]), nameOf, decode);
  }

  // ---- `spool_body` ------------------------------------------------------------------------------

  /** `body.read(n)`: some of the next `n` bytes, and at least one unless the stream is at its end. */
  method Read(stream: Bytes, n: nat) returns (block: Bytes, rest: Bytes)
    requires n > 0
    ensures stream == block + rest && |block| <= n && (block == [] ==> stream == [])
  {
    var k: nat :| k <= n && k <= |stream| && (k == 0 ==> stream == []);
    block, rest := stream[..k], stream[k..];
  }

  /** The spool holds exactly the announced bytes, or the call fails and leaves no file: it fails when
      there is nothing to write and when there is more than the cap. */
  method SpoolBody(stream: Bytes, length: int, maxBytes: nat) returns (disk: Option<Bytes>)
    ensures var due := if length <= 0 then 0 else if length < |stream| then length else |stream|;
            disk == if 0 < due <= maxBytes then Some(stream[..due]) else None
  {
    var remaining, written, rest := length, 0, stream;
    var out: Bytes := [];
    while remaining > 0
      invariant stream == out + rest && written == |out| <= maxBytes
      invariant remaining == length - written && (if length > 0 then remaining >= 0 else written == 0)
      decreases remaining
    {
      var block;
      block, rest := Read(rest, if 64 * 1024 < remaining then 64 * 1024 else remaining);
      if block == [] {
        assert out == stream;
        break;
      }
      written := written + |block|;
      if written > maxBytes { return None; }
      out := out + block;
      remaining := remaining - |block|;
    }
    if written <= 0 { return None; }
    assert out == stream[..written] && written == if length < |stream| then length else |stream|;
    return Some(out);
  }
}
