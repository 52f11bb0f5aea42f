/** `read_member`: one file of a package archive, capped for the preview and cut at a character. */
module Preview {
  import opened Wrappers
  import opened Bytes
  import opened Seqs
  import Utf8

  datatype Kind = File | Dir | Other

  /** An archive member as the tar library lists it. */
  datatype Member = Member(name: string, kind: Kind, content: Bytes)

  datatype Outcome =
    | BadPath
    | NotFound
    | TooLarge(size: nat)
    | Content(data: Bytes, size: nat, truncated: bool)

  /** `normalize_package_path`. */
  function NormalizePath(raw: string, isSpace: char -> bool): Option<string> {
    var text := Strip(raw, isSpace);
    if text == "" || text[0] == '/' || text[0] == '\\' then None
    else if |text| >= 2 && text[1] == ':' then None
    else if '\\' in text then None
    else
      var parts := Split(text, "/");
      if "" in parts || "." in parts || ".." in parts then None else Some(Join(parts, "/"))
  }

  /** A relative path without a drive letter, a backslash, or an empty, `.` or `..` segment. */
  predicate SafePath(text: string) {
    && '\\' !in text && (|text| >= 2 ==> text[1] != ':')
    && forall seg :: seg in Split(text, "/") ==> seg !in ["", ".", ".."]
  }

  /** A path is accepted if and only if its stripped text is safe, and then it is that text. */
  lemma NormalizedIff(raw: string, isSpace: char -> bool)
    ensures var text := Strip(raw, isSpace);
            NormalizePath(raw, isSpace) == if SafePath(text) then Some(text) else None
  {
    var text := Strip(raw, isSpace);
    JoinSplit(text, "/");
    if text == "" || text[0] == '/' { EmptyFirst(text); }
    assert text != "" && text[0] == '\\' ==> '\\' in text;
  }

  lemma EmptyFirst(text: string)
    requires text == "" || text[0] == '/'
    ensures "" in Split(text, "/")
  {
    if text != "" { FindIs(text, "/", 0, 0); }
    assert Split(text, "/")[0] == "";
  }

  ghost predicate LastNamed(archive: seq<Member>, i: nat, name: string) {
    i < |archive| && archive[i].name == name && forall j :: i < j < |archive| ==> archive[j].name != name
  }

  /** `tar.getmember`: the last member of that name. */
  method GetMember(archive: seq<Member>, name: string) returns (k: Option<nat>)
    ensures k.None? <==> forall i :: 0 <= i < |archive| ==> archive[i].name != name
    ensures k.Some? ==> LastNamed(archive, k.value, name)
  {
    var i := |archive|;
    while i > 0
      invariant 0 <= i <= |archive| && forall j :: i <= j < |archive| ==> archive[j].name != name
    {
      i := i - 1;
      if archive[i].name == name { return Some(i); }
    }
    return None;
  }

  /** The lengths the loop tries: the whole block, then up to three bytes less, never nothing. */
  predicate Tried(data: Bytes, k: nat) {
    0 < k <= |data| < k + 4
  }

  /** The cut of a truncated block: the longest tried prefix that decodes, or the block as it is. */
  ghost predicate IsCut(data: Bytes, cut: Bytes) {
    if exists k: nat :: Tried(data, k) && Utf8.Valid(data[..k])
    then cut <= data && Tried(data, |cut|) && Utf8.Valid(cut) && forall k: nat :: |cut| < k <= |data| ==> !Utf8.Valid(data[..k])
    else cut == data
  }

  method CutAtCharacter(data: Bytes) returns (cut: Bytes)
    ensures IsCut(data, cut)
  {
    cut := data;
    var drop := 0;
    while drop < 4 && drop < |data|
      invariant drop <= 4 && drop <= |data| && cut == data
      invariant forall k: nat :: |data| - drop < k <= |data| ==> !Utf8.Valid(data[..k])
    {
      var chunk := data[..|data| - drop];
      if Utf8.Valid(chunk) {
        cut := chunk;
        return;
      }
      drop := drop + 1;
    }
  }

  /** The answer for a file of the given content: its real size, and all of it or a cut of its first bytes. */
  ghost predicate Shown(content: Bytes, r: Outcome, maxBytes: nat)
    requires r.Content?
  {
    && r.size == |content| && r.truncated == (r.size > maxBytes)
    && if r.truncated then IsCut(content[..maxBytes], r.data) else r.data == content
  }

  method ReadMember(archive: seq<Member>, path: string, isSpace: char -> bool, maxBytes: nat, allowTruncate: bool) returns (r: Outcome)
    ensures r.BadPath? <==> NormalizePath(path, isSpace).None?
    ensures r.Content? ==>
      exists i :: 0 <= i < |archive| && LastNamed(archive, i, Strip(path, isSpace)) && archive[i].kind == File
                  && Shown(archive[i].content, r, maxBytes)
    ensures r.Content? && r.truncated ==> allowTruncate
    ensures r.TooLarge? ==> !allowTruncate && r.size > maxBytes
    ensures r.TooLarge? ==>
      exists i :: 0 <= i < |archive| && LastNamed(archive, i, Strip(path, isSpace)) && archive[i].kind == File
                  && r.size == |archive[i].content|
    ensures r.NotFound? ==> forall i :: 0 <= i < |archive| && LastNamed(archive, i, Strip(path, isSpace)) ==> archive[i].kind != File
  {
    var safe := NormalizePath(path, isSpace);
    if safe.None? { return BadPath; }
    NormalizedIff(path, isSpace);
    var k := GetMember(archive, safe.value);
    if k.None? { return NotFound; }
    var info := archive[k.value];
    if info.kind != File { return NotFound; }
    var size := |info.content|;
    if size > maxBytes && !allowTruncate { return TooLarge(size); }
    var data := if size <= maxBytes then info.content else info.content[..maxBytes];
    var truncated := size > |data|;
    if truncated && data != [] {
      data := CutAtCharacter(data);
    }
    return Content(data, size, truncated);
  }

  /** For a file that is valid UTF-8 and longer than a cap of at least one byte, the preview is valid UTF-8
      exactly when the cap holds the first character; it is then the longest valid prefix under the cap,
      and at most three bytes short of it. A cap of four bytes always suffices. */
  lemma PreviewIsLongestPrefix(full: Bytes, n: nat, cut: Bytes)
    requires Utf8.Valid(full) && 1 <= n < |full| && IsCut(full[..n], cut)
    ensures Utf8.Valid(cut) <==> Utf8.CharLen(full, 0) <= n
    ensures Utf8.Valid(cut) ==> cut == full[..|cut|] && n - 3 <= |cut| <= n
                                && forall k: nat :: |cut| < k <= n ==> !Utf8.Valid(full[..k])
    ensures n >= 4 ==> Utf8.Valid(cut)
  {
    var data := full[..n];
    var b := Utf8.CutNear(full, 0, n);
    assert data[..b] == full[..b];
    forall k: nat | k <= n ensures data[..k] == full[..k] { }
    if Utf8.CharLen(full, 0) <= n {
      assert Tried(data, b) && Utf8.Valid(data[..b]);
    } else {
      forall k: nat | 0 < k <= n ensures !Utf8.Valid(full[..k]) {
        if Utf8.Valid(full[..k]) { Utf8.FirstCharNeeded(full, k); }
      }
      assert cut == full[..|cut|];
    }
  }
}
