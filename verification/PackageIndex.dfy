/** The file index of a package archive: building it, and the task listing read off it. */
module PackageIndex {
  import opened Wrappers
  import opened Seqs
  import opened Paths
  import opened Preview

  datatype Entry = Entry(path: string, isDir: bool, size: nat)

  /** The path a member is listed under; a member without one is skipped. */
  function Listed(m: Member): Option<string> {
    var path := StripRight(m.name, c => c == '/');
    if path == "" || path[0] == '/' || ".." in Segments(path) || m.kind == Other then None else Some(path)
  }

  ghost predicate Ancestors(path: string, m: map<string, Entry>) {
    forall i :: 1 <= i < |Segments(path)| ==> Ancestor(path, i) in m
  }

  /** The list and the lookup map say the same. */
  ghost predicate Agree(entries: seq<Entry>, byPath: map<string, Entry>) {
    && (forall i :: 0 <= i < |entries| ==> entries[i].path in byPath && byPath[entries[i].path] == entries[i])
    && (forall i, j :: 0 <= i < j < |entries| ==> entries[i].path != entries[j].path)
    && (forall p :: p in byPath ==> byPath[p].path == p && byPath[p] in entries)
  }

  function EntryOf(m: Member, path: string): Entry {
    if m.kind == Dir then Entry(path, true, 0) else Entry(path, false, |m.content|)
  }

  /** `dir` is a proper ancestor of `path`. */
  ghost predicate Above(dir: string, path: string) {
    exists i :: 1 <= i < |Segments(path)| && dir == Ancestor(path, i)
  }

  /** The entry of path `p`, decided by the first member that mentions it: one listed under `p` gives its
      own entry, a deeper one a directory. */
  ghost function Expected(members: seq<Member>, n: nat, p: string): Option<Entry>
    requires n <= |members|
  {
    if n == 0 then None
    else
      var before := Expected(members, n - 1, p);
      var path := Listed(members[n - 1]);
      if before.Some? || path == None then before
      else if path == Some(p) then Some(EntryOf(members[n - 1], p))
      else if Above(p, path.value) then Some(Entry(p, true, 0))
      else None
  }

  ghost predicate AsExpected(members: seq<Member>, n: nat, byPath: map<string, Entry>)
    requires n <= |members|
  {
    forall p :: Expected(members, n, p) == if p in byPath then Some(byPath[p]) else None
  }

  /** What the index is once the first `n` members were read: exactly the expected entries, each once, each
      with all directories above it. */
  ghost predicate IsIndex(members: seq<Member>, n: nat, entries: seq<Entry>, byPath: map<string, Entry>)
    requires n <= |members|
  {
    && Agree(entries, byPath)
    && (forall p :: p in byPath ==> p != "" && p[0] != '/' && Ancestors(p, byPath))
    && AsExpected(members, n, byPath)
  }

  lemma JoinHead(parts: seq<string>)
    requires parts != []
    ensures parts[0] != "" ==> Join(parts, SLASH) != "" && Join(parts, SLASH)[0] == parts[0][0]
    ensures parts[0] == "" ==> Join(parts, SLASH) == "" || Join(parts, SLASH)[0] == '/'
  {
    if |parts| > 1 {
      assert Join(parts, SLASH) == parts[0] + SLASH + Join(parts[1..], SLASH);
    }
  }

  lemma AncestorHead(path: string, i: nat)
    requires path != "" && path[0] != '/' && 1 <= i <= |Segments(path)|
    ensures Ancestor(path, i) != "" && Ancestor(path, i)[0] != '/'
  {
    JoinSplit(path, SLASH);
    JoinHead(Segments(path));
    JoinHead(Segments(path)[..i]);
    assert Segments(path)[..i][0] == Segments(path)[0];
  }

  lemma AgreeAppend(entries: seq<Entry>, byPath: map<string, Entry>, e: Entry)
    requires Agree(entries, byPath) && e.path !in byPath
    ensures Agree(entries + [e], byPath[e.path := e])
  {
    var es, m := entries + [e], byPath[e.path := e];
    forall p | p in m ensures m[p].path == p && m[p] in es {
      if p == e.path { assert es[|entries|] == e; }
    }
  }

  lemma AncestorsGrow(path: string, m: map<string, Entry>, m': map<string, Entry>)
    requires Ancestors(path, m) && m.Keys <= m'.Keys
    ensures Ancestors(path, m')
  {
    forall i | 1 <= i < |Segments(path)| ensures Ancestor(path, i) in m' { assert Ancestor(path, i) in m.Keys; }
  }

  /** The index while the directories above the `k`-th member's path are being added: those before the
      `i`-th are there. */
  ghost predicate Growing(members: seq<Member>, k: nat, path: string, i: nat, entries: seq<Entry>, byPath: map<string, Entry>)
    requires k < |members|
  {
    && Agree(entries, byPath) && path in byPath
    && (forall j :: 1 <= j < i <= |Segments(path)| ==> Ancestor(path, j) in byPath)
    && (forall p :: p in byPath ==> p != "" && p[0] != '/' && (p == path || Ancestors(p, byPath)))
    && (forall p :: p in byPath ==> Expected(members, k + 1, p) == Some(byPath[p]))
    && (forall p :: p !in byPath ==> Expected(members, k, p) == None)
  }

  lemma ExpectedDir(members: seq<Member>, k: nat, path: string, i: nat)
    requires k < |members| && Listed(members[k]) == Some(path) && 1 <= i < |Segments(path)|
    requires Expected(members, k, Ancestor(path, i)) == None && Ancestor(path, i) != path
    ensures Expected(members, k + 1, Ancestor(path, i)) == Some(Entry(Ancestor(path, i), true, 0))
  {
    hide Listed;
    hide Ancestor;
    hide Segments;
    assert Above(Ancestor(path, i), path);
  }

  lemma AddDirKeeps(members: seq<Member>, k: nat, path: string, i: nat, entries: seq<Entry>, byPath: map<string, Entry>)
    requires k < |members| && Listed(members[k]) == Some(path) && 1 <= i < |Segments(path)|
    requires Growing(members, k, path, i, entries, byPath) && Ancestor(path, i) !in byPath
    ensures var e := Entry(Ancestor(path, i), true, 0); Growing(members, k, path, i + 1, entries + [e], byPath[e.path := e])
  {
    hide Expected;
    hide Agree;
    hide Ancestors;
    hide Ancestor;
    hide Listed;
    hide Segments;
    var e := Entry(Ancestor(path, i), true, 0);
    var m := byPath[e.path := e];
    AgreeAppend(entries, byPath, e);
    AncestorHead(path, i);
    ExpectedDir(members, k, path, i);
    AncestorsOfAncestor(path, i, m);
    forall p | p in m ensures p != "" && p[0] != '/' && (p == path || Ancestors(p, m)) {
      if p != e.path && p != path { AncestorsGrow(p, byPath, m); }
    }
  }

  lemma DirIsThere(members: seq<Member>, k: nat, path: string, i: nat, entries: seq<Entry>, byPath: map<string, Entry>)
    requires k < |members| && 1 <= i < |Segments(path)| && Growing(members, k, path, i, entries, byPath) && Ancestor(path, i) in byPath
    ensures Growing(members, k, path, i + 1, entries, byPath)
  {
    hide Expected;
    hide Agree;
    hide Ancestors;
    hide Ancestor;
    hide Segments;
  }

  /** One accepted member: its own entry, then the directories above it that are not listed yet. */
  method AddMember(members: seq<Member>, k: nat, path: string, entries0: seq<Entry>, byPath0: map<string, Entry>)
    returns (entries: seq<Entry>, byPath: map<string, Entry>)
    requires k < |members| && Listed(members[k]) == Some(path) && path !in byPath0
    requires IsIndex(members, k, entries0, byPath0)
    ensures IsIndex(members, k + 1, entries, byPath)
  {
    hide Growing;
    hide IsIndex;
    hide Listed;
    hide Segments;
    hide Ancestor;
    var e := EntryOf(members[k], path);
    FirstEntry(members, k, path, entries0, byPath0);
    entries, byPath := entries0 + [e], byPath0[path := e];
    var parts := Segments(path);
    var i := 1;
    while i < |parts|
      invariant 1 <= i <= |parts| && Growing(members, k, path, i, entries, byPath)
    {
      var d := Entry(Ancestor(path, i), true, 0);
      if d.path !in byPath {
        AddDirKeeps(members, k, path, i, entries, byPath);
        byPath := byPath[d.path := d];
        entries := entries + [d];
      } else {
        DirIsThere(members, k, path, i, entries, byPath);
      }
      i := i + 1;
    }
    LastEntry(members, k, path, entries, byPath);
  }

  lemma FirstEntry(members: seq<Member>, k: nat, path: string, entries: seq<Entry>, byPath: map<string, Entry>)
    requires k < |members| && Listed(members[k]) == Some(path) && path !in byPath
    requires IsIndex(members, k, entries, byPath)
    ensures var e := EntryOf(members[k], path); Growing(members, k, path, 1, entries + [e], byPath[path := e])
  {
    ListedHead(members[k]);
    hide Agree;
    hide Listed;
    hide Above;
    var e := EntryOf(members[k], path);
    var m := byPath[path := e];
    AgreeAppend(entries, byPath, e);
    hide EntryOf;
    forall p ensures p in m ==> Expected(members, k + 1, p) == Some(m[p]) {
      assert Expected(members, k, p) == if p in byPath then Some(byPath[p]) else None;
    }
    forall p | p !in m ensures Expected(members, k, p) == None {
      assert p !in byPath;
    }
    forall p | p in m ensures p != "" && p[0] != '/' && (p == path || Ancestors(p, m)) {
      if p != path { AncestorsGrow(p, byPath, m); }
    }
  }

  lemma ListedHead(m: Member)
    ensures Listed(m).Some? ==> Listed(m).value != "" && Listed(m).value[0] != '/'
  {
  }

  lemma LastEntry(members: seq<Member>, k: nat, path: string, entries: seq<Entry>, byPath: map<string, Entry>)
    requires k < |members| && Listed(members[k]) == Some(path)
    requires Growing(members, k, path, |Segments(path)|, entries, byPath)
    ensures IsIndex(members, k + 1, entries, byPath)
  {
    hide Agree;
    hide Listed;
    hide Segments;
    hide Ancestor;
    assert Ancestors(path, byPath);
    forall p ensures Expected(members, k + 1, p) == if p in byPath then Some(byPath[p]) else None {
      if p !in byPath {
        assert Expected(members, k, p) == None && p != path;
        assert !Above(p, path);
      }
    }
  }

  lemma AncestorsOfAncestor(path: string, i: nat, m: map<string, Entry>)
    requires 1 <= i <= |Segments(path)| && forall j :: 1 <= j < i ==> Ancestor(path, j) in m
    ensures Ancestors(Ancestor(path, i), m)
  {
    var d := Ancestor(path, i);
    AncestorOfAncestor(path, i, 1);
    forall j | 1 <= j < |Segments(d)| ensures Ancestor(d, j) in m {
      AncestorOfAncestor(path, i, j);
    }
  }

  /** `build_index_from_archive`: the list and the lookup map hold, for every path the archive mentions and
      for no other, the one entry that its first mention decides. */
  method BuildIndex(members: seq<Member>) returns (entries: seq<Entry>, byPath: map<string, Entry>)
    ensures IsIndex(members, |members|, entries, byPath)
  {
    hide IsIndex;
    hide Listed;
    entries, byPath := [], map[];
    NoMembers(members);
    for k := 0 to |members|
      invariant IsIndex(members, k, entries, byPath)
    {
      var path := Listed(members[k]);
      if path.Some? && path.value !in byPath {
        entries, byPath := AddMember(members, k, path.value, entries, byPath);
      } else {
        SkipMember(members, k, entries, byPath);
      }
    }
  }

  lemma NoMembers(members: seq<Member>)
    ensures IsIndex(members, 0, [], map[])
  {
  }

  lemma SkipMember(members: seq<Member>, k: nat, entries: seq<Entry>, byPath: map<string, Entry>)
    requires k < |members| && IsIndex(members, k, entries, byPath)
    requires Listed(members[k]).Some? ==> Listed(members[k]).value in byPath
    ensures IsIndex(members, k + 1, entries, byPath)
  {
    hide Listed;
    hide Agree;
    hide Segments;
    hide Ancestor;
    hide EntryOf;
    forall p ensures Expected(members, k + 1, p) == Expected(members, k, p) {
      assert Expected(members, k, p) == if p in byPath then Some(byPath[p]) else None;
      if p !in byPath && Listed(members[k]).Some? {
        assert Ancestors(Listed(members[k]).value, byPath);
        assert !Above(p, Listed(members[k]).value);
      }
    }
  }

  /** What is expected, without the recursion: the first mention decides. */
  lemma {:induction false} FirstMentionDecides(members: seq<Member>, n: nat, p: string)
    requires n <= |members|
    ensures Expected(members, n, p) == None <==> forall k :: 0 <= k < n ==> !Mentions(members[k], p)
    ensures forall k :: 0 <= k < n && Mentions(members[k], p) && (forall j :: 0 <= j < k ==> !Mentions(members[j], p)) ==>
              Expected(members, n, p)
              == Some(if Listed(members[k]) == Some(p) && members[k].kind != Dir then Entry(p, false, |members[k].content|) else Entry(p, true, 0))
  {
    hide Listed;
    hide Above;
    if n > 0 { FirstMentionDecides(members, n - 1, p); }
  }

  ghost predicate Mentions(m: Member, p: string) {
    Listed(m).Some? && (Listed(m).value == p || Above(p, Listed(m).value))
  }

  // ---- the index and the preview -----------------------------------------------------------------

  ghost predicate FirstMention(members: seq<Member>, f: nat, p: string) {
    f < |members| && Mentions(members[f], p) && forall j :: 0 <= j < f ==> !Mentions(members[j], p)
  }

  /** The index lists `p` as a file of this size. */
  ghost predicate ListsFile(members: seq<Member>, p: string, size: nat) {
    Expected(members, |members|, p) == Some(Entry(p, false, size))
  }

  /** `read_member` finds `p` as a file of this size. */
  ghost predicate ShowsFile(members: seq<Member>, p: string, size: nat) {
    exists l: nat :: LastNamed(members, l, p) && members[l].kind == File && |members[l].content| == size
  }

  ghost predicate SameFile(members: seq<Member>, p: string) {
    forall size: nat :: ListsFile(members, p, size) <==> ShowsFile(members, p, size)
  }

  /** The size of `p`, if this member is the file of that path. */
  function FileSize(m: Member, p: string): Option<nat> {
    if m.kind == File && Listed(m) == Some(p) then Some(|m.content|) else None
  }

  ghost predicate NoneNamed(members: seq<Member>, p: string) {
    forall i :: 0 <= i < |members| ==> members[i].name != p
  }

  /** For a path that `read_member` accepts, the index lists what the preview shows if and only if the first
      member that mentions the path and the last one of that name are files of one size, or both no files. */
  lemma IndexMatchesPreviewIff(members: seq<Member>, p: string)
    requires SafePath(p)
    ensures SameFile(members, p) <==>
      && (forall f: nat, l: nat :: FirstMention(members, f, p) && LastNamed(members, l, p)
            ==> FileSize(members[f], p) == FileSize(members[l], p))
      && (NoneNamed(members, p) ==> forall f: nat :: FirstMention(members, f, p) ==> FileSize(members[f], p) == None)
  {
    hide SafePath;
    hide Expected;
    hide Listed;
    hide ListsFile;
    hide ShowsFile;
    hide FileSize;
    if !NoneNamed(members, p) {
      var l := LastOf(members, p);
      ShowsLast(members, p, l);
      if exists k: nat :: k < |members| && Mentions(members[k], p) {
        var f := FirstOf(members, p);
        ListsFirst(members, p, f);
        OnlyFirst(members, p, f);
        OnlyLast(members, p, l);
        SameSizes(members, p, f, l);
      } else {
        NotMentioned(members, p);
        NamedIsMentioned(members, p, l);
        forall size: nat ensures !ListsFile(members, p, size) && !ShowsFile(members, p, size) {}
      }
    } else {
      NotShown(members, p);
      if exists k: nat :: k < |members| && Mentions(members[k], p) {
        var f := FirstOf(members, p);
        ListsFirst(members, p, f);
        OnlyFirst(members, p, f);
        if FileSize(members[f], p).Some? { assert ListsFile(members, p, FileSize(members[f], p).value); }
      } else {
        NotMentioned(members, p);
      }
    }
  }

  lemma SameSizes(members: seq<Member>, p: string, f: nat, l: nat)
    requires f < |members| && l < |members|
    requires forall size: nat :: ListsFile(members, p, size) <==> FileSize(members[f], p) == Some(size)
    requires forall size: nat :: ShowsFile(members, p, size) <==> FileSize(members[l], p) == Some(size)
    ensures SameFile(members, p) <==> FileSize(members[f], p) == FileSize(members[l], p)
  {
    hide ListsFile;
    hide ShowsFile;
    hide FileSize;
    var (a, b) := (FileSize(members[f], p), FileSize(members[l], p));
    if SameFile(members, p) {
      if a.Some? { assert ListsFile(members, p, a.value); }
      if b.Some? { assert ShowsFile(members, p, b.value); }
    }
  }

  lemma LastOf(members: seq<Member>, p: string) returns (l: nat)
    requires !NoneNamed(members, p)
    ensures LastNamed(members, l, p)
  {
    var n := |members|;
    while n > 0
      invariant 0 <= n <= |members| && forall j :: n <= j < |members| ==> members[j].name != p
    {
      n := n - 1;
      if members[n].name == p { return n; }
    }
  }

  lemma FirstOf(members: seq<Member>, p: string) returns (f: nat)
    requires exists k: nat :: k < |members| && Mentions(members[k], p)
    ensures FirstMention(members, f, p)
  {
    hide Mentions;
    f := 0;
    while f < |members| && !Mentions(members[f], p)
      invariant f <= |members| && forall j :: 0 <= j < f ==> !Mentions(members[j], p)
    {
      f := f + 1;
    }
  }

  lemma OnlyFirst(members: seq<Member>, p: string, f: nat)
    requires FirstMention(members, f, p)
    ensures forall g: nat :: FirstMention(members, g, p) ==> g == f
  {
    hide Mentions;
  }

  lemma OnlyLast(members: seq<Member>, p: string, l: nat)
    requires LastNamed(members, l, p)
    ensures forall k: nat :: LastNamed(members, k, p) ==> k == l
  {
  }

  lemma ListsFirst(members: seq<Member>, p: string, f: nat)
    requires FirstMention(members, f, p)
    ensures forall size: nat :: ListsFile(members, p, size) <==> FileSize(members[f], p) == Some(size)
  {
    hide Mentions;
    hide Expected;
    hide Listed;
    FirstMentionDecides(members, |members|, p);
    ListedKind(members[f]);
  }

  lemma ListedKind(m: Member)
    ensures Listed(m).Some? ==> m.kind != Other
  {
  }

  lemma ShowsLast(members: seq<Member>, p: string, l: nat)
    requires SafePath(p) && LastNamed(members, l, p)
    ensures forall size: nat :: ShowsFile(members, p, size) <==> FileSize(members[l], p) == Some(size)
  {
    hide SafePath;
    hide Listed;
    OnlyLast(members, p, l);
    if members[l].kind == File { ListedAsNamed(members[l]); }
  }

  lemma NamedIsMentioned(members: seq<Member>, p: string, l: nat)
    requires SafePath(p) && LastNamed(members, l, p) && forall k: nat :: k < |members| ==> !Mentions(members[k], p)
    ensures FileSize(members[l], p) == None
  {
    hide SafePath;
    hide Listed;
    if members[l].kind == File { ListedAsNamed(members[l]); }
  }

  lemma NotMentioned(members: seq<Member>, p: string)
    requires forall k: nat :: k < |members| ==> !Mentions(members[k], p)
    ensures forall size: nat :: !ListsFile(members, p, size)
    ensures forall f: nat :: !FirstMention(members, f, p)
  {
    hide Mentions;
    hide Expected;
    FirstMentionDecides(members, |members|, p);
  }

  lemma NotShown(members: seq<Member>, p: string)
    requires NoneNamed(members, p)
    ensures forall size: nat :: !ShowsFile(members, p, size)
    ensures forall l: nat :: !LastNamed(members, l, p)
  {
  }

  /** A member with a safe name is listed under that name. */
  lemma ListedAsNamed(m: Member)
    requires SafePath(m.name) && m.kind != Other
    ensures Listed(m) == Some(m.name)
  {
    if m.name == "" || m.name[0] == '/' { EmptyFirst(m.name); }
    if m.name != "" && m.name[|m.name| - 1] == '/' { EmptyLast(m.name, 0); }
    assert "" !in Segments(m.name) && ".." !in Segments(m.name);
  }

  lemma {:induction false} EmptyLast(s: string, from: nat)
    requires from <= |s| && s != "" && s[|s| - 1] == '/'
    ensures "" in SplitFrom(s, SLASH, from)
    decreases |s| - from
  {
    var hit := Find(s, SLASH, from);
    if hit.None? {
      if from < |s| { assert At(s, SLASH, |s| - 1); }
      assert SplitFrom(s, SLASH, from)[0] == s[from..];
    } else {
      EmptyLast(s, hit.value + 1);
      assert SplitFrom(s, SLASH, from) == [s[from..hit.value]] + SplitFrom(s, SLASH, hit.value + 1);
    }
  }

  /** A name that occurs twice with two sizes: the index lists the first file, the preview shows the second. */
  lemma TwiceNamedDisagrees()
    ensures var members := [Member("a", File, [1]), Member("a", File, [1, 2])];
            SafePath("a") && ListsFile(members, "a", 1) && ShowsFile(members, "a", 2) && !SameFile(members, "a")
  {
    hide Expected;
    var members := [Member("a", File, [1]), Member("a", File, [1, 2])];
    SafeLetter();
    ListedAsNamed(members[0]);
    hide Listed;
    hide SafePath;
    assert FirstMention(members, 0, "a");
    ListsFirst(members, "a", 0);
    assert LastNamed(members, 1, "a");
    ShowsLast(members, "a", 1);
    ListedAsNamed(members[1]);
    assert FileSize(members[0], "a") == Some(1) && FileSize(members[1], "a") == Some(2);
  }

  lemma SafeLetter()
    ensures SafePath("a")
  {
    forall i: nat ensures !At("a", SLASH, i) {
      if i == 0 { assert SLASH[0] != "a"[0]; }
    }
    assert Split("a", SLASH) == ["a"];
  }
}
