/** The task listing of a package: read off the archive index, and, independently, off file paths. */
module TaskListing {
  import opened Wrappers
  import opened Seqs
  import opened Paths
  import opened PackageIndex
  import Preview
  import Sorting

  const TASKS: string := "tasks/"
  const README: string := "/README.md"

  // ---- `task_ids_from_file_paths` --------------------------------------------------------------

  predicate IsSlash(c: char) {
    c == '/'
  }

  function TaskIdOf(raw: string, isSpace: char -> bool): Option<string> {
    var text := StripLeft(Strip(raw, isSpace), IsSlash);
    if text == "" || ".." <= text then None
    else
      var parts := Segments(text);
      if |parts| >= 2 && parts[0] == "tasks" && parts[1] != "" then Some(parts[1]) else None
  }

  method TaskIdsFromFilePaths(paths: seq<string>, isSpace: char -> bool) returns (ids: set<string>)
    ensures forall id :: id in ids <==> exists k :: 0 <= k < |paths| && TaskIdOf(paths[k], isSpace) == Some(id)
  {
    hide TaskIdOf;
    ids := {};
    for k := 0 to |paths|
      invariant forall id :: id in ids <==> exists j :: 0 <= j < k && TaskIdOf(paths[j], isSpace) == Some(id)
    {
      var id := TaskIdOf(paths[k], isSpace);
      if id.Some? { ids := ids + {id.value}; }
    }
  }

  // ---- `list_tasks` ------------------------------------------------------------------------------

  /** The first segment behind `tasks/`. */
  function TaskId(path: string): Option<string> {
    if !At(path, TASKS, 0) || |path| == |TASKS| then None
    else
      var id := SplitFrom(path, SLASH, |TASKS|)[0];
      if id == "" then None else Some(id)
  }

  predicate IsReadme(e: Entry, id: string) {
    !e.isDir && e.path == TASKS + id + README
  }

  predicate Shared(path: string) {
    path == "shared" || At(path, "shared/", 0)
  }

  datatype Row = Row(taskId: string, hasReadme: bool)

  /** Python's order on strings. */
  predicate LexLe(a: string, b: string) {
    a == "" || (b != "" && (a[0] < b[0] || (a[0] == b[0] && LexLe(a[1..], b[1..]))))
  }

  /** A text comes before another if it is a piece of its front, or smaller at the first place they differ. */
  lemma {:induction false} LexLeIff(a: string, b: string)
    ensures LexLe(a, b) <==> a <= b || exists k :: 0 <= k < |a| && k < |b| && a[..k] == b[..k] && a[k] < b[k]
    decreases |a|
  {
    if a != "" && b != "" {
      LexLeIff(a[1..], b[1..]);
      if a[0] == b[0] { LexShift(a, b); }
      if a[0] < b[0] { assert a[..0] == b[..0]; }
    }
  }

  lemma LexShift(a: string, b: string)
    requires a != "" && b != "" && a[0] == b[0]
    ensures a <= b <==> a[1..] <= b[1..]
    ensures (exists k :: 0 <= k < |a| && k < |b| && a[..k] == b[..k] && a[k] < b[k]) <==>
              exists k :: 0 <= k < |a[1..]| && k < |b[1..]| && a[1..][..k] == b[1..][..k] && a[1..][k] < b[1..][k]
  {
    var (c, d) := (a[1..], b[1..]);
    assert a == [a[0]] + c && b == [b[0]] + d;
    if k :| 0 <= k < |a| && k < |b| && a[..k] == b[..k] && a[k] < b[k] {
      assert k > 0 && c[..k - 1] == a[..k][1..] && d[..k - 1] == b[..k][1..] && c[k - 1] < d[k - 1];
    }
    if k :| 0 <= k < |c| && k < |d| && c[..k] == d[..k] && c[k] < d[k] {
      assert a[..k + 1] == [a[0]] + c[..k] && b[..k + 1] == [b[0]] + d[..k] && a[k + 1] < b[k + 1];
    }
  }

  lemma {:induction false} LexTotal(a: string, b: string)
    ensures LexLe(a, b) || LexLe(b, a)
  {
    if a != "" && b != "" { LexTotal(a[1..], b[1..]); }
  }

  lemma {:induction false} LexTrans(a: string, b: string, c: string)
    requires LexLe(a, b) && LexLe(b, c)
    ensures LexLe(a, c)
  {
    if a != "" && a[0] == b[0] && b[0] == c[0] { LexTrans(a[1..], b[1..], c[1..]); }
  }

  lemma LexPreorder()
    ensures Sorting.TotalPreorder(LexLe)
  {
    forall a, b ensures LexLe(a, b) || LexLe(b, a) { LexTotal(a, b); }
    forall a, b, c | LexLe(a, b) && LexLe(b, c) ensures LexLe(a, c) { LexTrans(a, b, c); }
  }

  /** Among the first `n` entries, one lies under `tasks/<id>`. */
  ghost predicate Mentioned(entries: seq<Entry>, n: nat, id: string)
    requires n <= |entries|
  {
    exists k :: 0 <= k < n && TaskId(entries[k].path) == Some(id)
  }

  ghost predicate HasReadme(entries: seq<Entry>, n: nat, id: string)
    requires n <= |entries|
  {
    exists k :: 0 <= k < n && IsReadme(entries[k], id)
  }

  /** `tasks/<id>/README.md` belongs to the task `<id>`. */
  lemma ReadmeOfTask(id: string)
    requires id != "" && '/' !in id
    ensures TaskId(TASKS + id + README) == Some(id)
  {
    assert "tasks/" + id + "/" <= TASKS + id + README;
    TaskIdIff(TASKS + id + README, id);
  }

  lemma TaskIdHasNoSlash(path: string)
    ensures TaskId(path).Some? ==> TaskId(path).value != "" && '/' !in TaskId(path).value
  {
    if TaskId(path).Some? {
      var id := TaskId(path).value;
      SplitPieces(path, SLASH, |TASKS|, 0);
      forall i: nat | i < |id| ensures id[i] != '/' { assert !At(id, SLASH, i); }
    }
  }

  /** The path is the directory of the task, or lies in it. */
  predicate LiesUnder(path: string, id: string) {
    id != "" && '/' !in id && (path == "tasks/" + id || "tasks/" + id + "/" <= path)
  }

  lemma TaskIdIff(path: string, id: string)
    ensures TaskId(path) == Some(id) <==> LiesUnder(path, id)
  {
    if LiesUnder(path, id) { LiesUnderHasId(path, id); }
    if TaskId(path) == Some(id) { IdLiesUnder(path, id); }
  }

  lemma LiesUnderHasId(path: string, id: string)
    requires LiesUnder(path, id)
    ensures TaskId(path) == Some(id)
  {
    hide At;
    hide Find;
    hide SplitFrom;
    if path == "tasks/" + id {
      BehindTasks(path, id);
      LastPiece(path, id, |TASKS|);
    } else {
      var rest := path[|TASKS| + |id| + 1..];
      assert path == TASKS + (id + SLASH + rest);
      BehindTasks(path, id + SLASH + rest);
      AtConcat(path, id + SLASH, rest, |TASKS|);
      FirstPiece(path, id, |TASKS|);
    }
  }

  lemma BehindTasks(path: string, tail: string)
    requires path == TASKS + tail
    ensures At(path, TASKS, 0) && At(path, tail, |TASKS|)
  {
    AtSlice(path, path, 0);
    hide At;
    AtConcat(path, TASKS, tail, 0);
  }

  lemma IdLiesUnder(path: string, id: string)
    requires TaskId(path) == Some(id)
    ensures LiesUnder(path, id)
  {
    TaskIdHasNoSlash(path);
    AtSlice(path, TASKS, 0);
    var hit := Find(path, SLASH, |TASKS|);
    assert id == if hit.None? then path[|TASKS|..] else path[|TASKS|..hit.value];
    assert path == TASKS + path[|TASKS|..];
    if hit.Some? {
      AtSlice(path, SLASH, hit.value);
      assert path[..hit.value + 1] == TASKS + id + SLASH;
    }
  }

  /** The flags and ids of a listing, in terms of the paths alone. */
  lemma ListingMeans(entries: seq<Entry>, id: string)
    ensures Mentioned(entries, |entries|, id) <==> exists k :: 0 <= k < |entries| && LiesUnder(entries[k].path, id)
    ensures HasReadme(entries, |entries|, id) <==>
              exists k :: 0 <= k < |entries| && !entries[k].isDir && entries[k].path == "tasks/" + id + "/README.md"
  {
    hide TaskId;
    hide LiesUnder;
    forall k | 0 <= k < |entries| ensures TaskId(entries[k].path) == Some(id) <==> LiesUnder(entries[k].path, id) {
      TaskIdIff(entries[k].path, id);
    }
    forall k | 0 <= k < |entries| ensures IsReadme(entries[k], id) <==> !entries[k].isDir && entries[k].path == "tasks/" + id + "/README.md" {
      ReadmeSpelled(id);
    }
  }

  lemma ReadmeSpelled(id: string)
    ensures TASKS + id + README == "tasks/" + id + "/README.md"
  {
  }

  lemma SharedMeans(entries: seq<Entry>)
    ensures (exists k :: 0 <= k < |entries| && Shared(entries[k].path)) <==>
              exists k :: 0 <= k < |entries| && (entries[k].path == "shared" || "shared/" <= entries[k].path)
  {
    forall k | 0 <= k < |entries| ensures Shared(entries[k].path) <==> entries[k].path == "shared" || "shared/" <= entries[k].path {
      AtSlice(entries[k].path, "shared/", 0);
    }
  }

  /** What the loop has collected after `n` entries. */
  ghost predicate Listing(entries: seq<Entry>, n: nat, order: seq<string>, readme: map<string, bool>)
    requires n <= |entries|
  {
    && Sorting.Distinct(order)
    && (forall id :: id in order <==> id in readme)
    && (forall id :: id in readme <==> Mentioned(entries, n, id))
    && (forall id :: id in readme ==> (readme[id] <==> HasReadme(entries, n, id)))
  }

  lemma OneMoreEntry(entries: seq<Entry>, n: nat, id: string)
    requires n < |entries|
    ensures Mentioned(entries, n + 1, id) <==> Mentioned(entries, n, id) || TaskId(entries[n].path) == Some(id)
    ensures HasReadme(entries, n + 1, id) <==> HasReadme(entries, n, id) || IsReadme(entries[n], id)
  {
  }

  /** A mentioned task is not empty and has no slash, so its README names it. */
  lemma ReadmeIsOwn(entries: seq<Entry>, n: nat, id: string)
    requires n < |entries| && Mentioned(entries, n + 1, id) && IsReadme(entries[n], id)
    ensures TaskId(entries[n].path) == Some(id)
  {
    var k :| 0 <= k < n + 1 && TaskId(entries[k].path) == Some(id);
    TaskIdHasNoSlash(entries[k].path);
    ReadmeOfTask(id);
  }

  lemma ListingStep(entries: seq<Entry>, n: nat, order: seq<string>, readme: map<string, bool>)
    requires n < |entries| && Listing(entries, n, order, readme)
    ensures var id := TaskId(entries[n].path);
      if id.None? then Listing(entries, n + 1, order, readme)
      else Listing(entries, n + 1, if id.value in readme then order else order + [id.value],
                   readme[id.value := (id.value in readme && readme[id.value]) || IsReadme(entries[n], id.value)])
  {
    hide TaskId;
    hide IsReadme;
    var id := TaskId(entries[n].path);
    forall i: string ensures Mentioned(entries, n + 1, i) <==> Mentioned(entries, n, i) || id == Some(i) {
      OneMoreEntry(entries, n, i);
    }
    forall i: string | Mentioned(entries, n + 1, i)
      ensures HasReadme(entries, n + 1, i) <==> HasReadme(entries, n, i) || (id == Some(i) && IsReadme(entries[n], i))
    {
      OneMoreEntry(entries, n, i);
      if IsReadme(entries[n], i) { ReadmeIsOwn(entries, n, i); }
    }
    if id.Some? && id.value !in readme {
      NoReadmeYet(entries, n, id.value);
    }
    hide HasReadme;
    hide Mentioned;
  }

  lemma NoReadmeYet(entries: seq<Entry>, n: nat, id: string)
    requires n < |entries| && TaskId(entries[n].path) == Some(id) && !Mentioned(entries, n, id)
    ensures !HasReadme(entries, n, id)
  {
    if HasReadme(entries, n, id) {
      var k :| 0 <= k < n && IsReadme(entries[k], id);
      TaskIdHasNoSlash(entries[n].path);
      ReadmeOfTask(id);
    }
  }

  /** The rows of a listing: the ids in order, each with its README flag. */
  ghost predicate Rows(items: seq<Row>, readme: map<string, bool>) {
    && (forall i :: 0 <= i < |items| ==> items[i].taskId in readme && items[i].hasReadme == readme[items[i].taskId])
    && (forall i, j :: 0 <= i < j < |items| ==> items[i].taskId != items[j].taskId && LexLe(items[i].taskId, items[j].taskId))
    && (forall id :: id in readme ==> exists i :: 0 <= i < |items| && items[i].taskId == id)
  }

  method ListRows(order: seq<string>, readme: map<string, bool>) returns (items: seq<Row>)
    requires Sorting.Distinct(order) && forall id :: id in order <==> id in readme
    ensures Rows(items, readme)
  {
    var sorted := Sorting.Sort(order, LexLe);
    LexPreorder();
    Sorting.SortSorted(order, LexLe);
    Sorting.SortDistinct(order, LexLe);
    forall id ensures id in sorted <==> id in readme { Sorting.SortMembers(order, LexLe, id); }
    items := seq(|sorted|, i requires 0 <= i < |sorted| => Row(sorted[i], sorted[i] in readme && readme[sorted[i]]));
    forall id | id in readme ensures exists i :: 0 <= i < |items| && items[i].taskId == id {
      var i :| 0 <= i < |sorted| && sorted[i] == id;
      assert items[i].taskId == id;
    }
    assert forall i :: 0 <= i < |items| ==> items[i].taskId == sorted[i] && sorted[i] in sorted;
  }

  ghost predicate HasRow(items: seq<Row>, id: string) {
    exists i :: 0 <= i < |items| && items[i].taskId == id
  }

  /** `list_tasks`: exactly the tasks some entry lies under, once each and sorted, each with a flag for its
      README file; and whether the package has shared files. */
  method ListTasks(entries: seq<Entry>) returns (items: seq<Row>, hasShared: bool)
    ensures forall id :: HasRow(items, id) <==> exists k :: 0 <= k < |entries| && LiesUnder(entries[k].path, id)
    ensures forall i, j :: 0 <= i < j < |items| ==> items[i].taskId != items[j].taskId && LexLe(items[i].taskId, items[j].taskId)
    ensures forall i :: 0 <= i < |items| ==> (items[i].hasReadme <==>
              exists k :: 0 <= k < |entries| && !entries[k].isDir && entries[k].path == "tasks/" + items[i].taskId + "/README.md")
    ensures hasShared <==> exists k :: 0 <= k < |entries| && (entries[k].path == "shared" || "shared/" <= entries[k].path)
  {
    hide Listing;
    hide TaskId;
    hide IsReadme;
    hide Shared;
    hide LiesUnder;
    hide Mentioned;
    hide HasReadme;
    var readme: map<string, bool> := map[];
    var order: seq<string> := [];
    EmptyListing(entries);
    hasShared := false;
    for k := 0 to |entries|
      invariant hasShared <==> exists j :: 0 <= j < k && Shared(entries[j].path)
      invariant Listing(entries, k, order, readme)
    {
      var path := entries[k].path;
      if Shared(path) { hasShared := true; }
      ListingStep(entries, k, order, readme);
      ghost var readme0 := readme;
      var id := TaskId(path);
      if id.Some? {
        if id.value !in readme {
          readme := readme[id.value := false];
          order := order + [id.value];
        }
        if IsReadme(entries[k], id.value) {
          readme := readme[id.value := true];
        }
        assert readme == readme0[id.value := (id.value in readme0 && readme0[id.value]) || IsReadme(entries[k], id.value)];
      }
    }
    ListingEnds(entries, order, readme);
    items := ListRows(order, readme);
    SharedMeans(entries);
    forall id: string
      ensures HasRow(items, id) <==> id in readme
      ensures Mentioned(entries, |entries|, id) <==> exists k :: 0 <= k < |entries| && LiesUnder(entries[k].path, id)
      ensures HasReadme(entries, |entries|, id) <==>
                exists k :: 0 <= k < |entries| && !entries[k].isDir && entries[k].path == "tasks/" + id + "/README.md"
    {
      ListingMeans(entries, id);
    }
  }

  lemma EmptyListing(entries: seq<Entry>)
    ensures Listing(entries, 0, [], map[])
  {
  }

  lemma ListingEnds(entries: seq<Entry>, order: seq<string>, readme: map<string, bool>)
    requires Listing(entries, |entries|, order, readme)
    ensures Sorting.Distinct(order) && forall id :: id in order <==> id in readme
    ensures forall id :: id in readme <==> Mentioned(entries, |entries|, id)
    ensures forall id :: id in readme ==> (readme[id] <==> HasReadme(entries, |entries|, id))
  {
  }

  // ---- the two agree -------------------------------------------------------------------------------

  lemma {:induction false} StripNothing(s: string, blank: char -> bool)
    requires s == "" || !blank(s[0])
    ensures StripLeft(s, blank) == s
  {
  }

  lemma NothingUnder(id: string)
    ensures !LiesUnder("", id)
  {
  }

  /** On a path without edge whitespace that does not start with a slash, both read the same task id. */
  lemma SameTaskId(path: string, isSpace: char -> bool)
    requires Strip(path, isSpace) == path && path != "" && path[0] != '/'
    ensures TaskId(path) == TaskIdOf(path, isSpace)
  {
    StripNothing(path, IsSlash);
    SameTask(path);
  }

  lemma SameTask(path: string)
    requires path != "" && path[0] != '/'
    ensures TaskId(path) == if ".." <= path then None
                            else if |Segments(path)| >= 2 && Segments(path)[0] == "tasks" && Segments(path)[1] != "" then Some(Segments(path)[1])
                            else None
  {
    assert TASKS == "tasks" + SLASH;
    var parts := Segments(path);
    if |parts| >= 2 && parts[0] == "tasks" { TasksFirst(path); }
    if At(path, TASKS, 0) {
      AtConcat(path, "tasks", SLASH, 0);
      forall i: nat | i < 5 ensures !At(path, SLASH, i) { NoSlashHere(path, "tasks", 0, i); }
      FindIs(path, SLASH, 0, 5);
      AtSlice(path, "tasks", 0);
      assert parts == ["tasks"] + SplitFrom(path, SLASH, 6);
      assert path[0 + 0] == "tasks"[0] && ".."[0] == '.';
      if |path| == 6 { assert path[6..] == "" && Find(path, SLASH, 6).None?; }
    }
  }

  lemma TasksFirst(path: string)
    requires |Segments(path)| >= 2 && Segments(path)[0] == "tasks"
    ensures At(path, TASKS, 0)
  {
    assert TASKS == "tasks" + SLASH;
    AtSlice(path, "tasks", 0);
    AtConcat(path, "tasks", SLASH, 0);
  }

  /** Which id a path carries, for every path: the whitespace at its ends and then the slashes in front do not
      count, and what is left lies under the task. */
  lemma TaskIdOfIff(raw: string, isSpace: char -> bool, id: string)
    ensures TaskIdOf(raw, isSpace) == Some(id) <==> LiesUnder(StripLeft(Strip(raw, isSpace), IsSlash), id)
  {
    hide TaskId;
    hide LiesUnder;
    hide Segments;
    hide Strip;
    hide StripLeft;
    var text := StripLeft(Strip(raw, isSpace), IsSlash);
    TaskIdIff(text, id);
    if text == "" {
      NothingUnder(id);
    } else {
      SameTask(text);
    }
  }

  /** For an archive index whose paths have no edge whitespace, `list_tasks` names exactly the ids that
      `task_ids_from_file_paths` finds in the same paths. */
  lemma ListingsAgree(members: seq<Preview.Member>, entries: seq<Entry>, byPath: map<string, Entry>, isSpace: char -> bool, id: string)
    requires IsIndex(members, |members|, entries, byPath)
    requires forall k :: 0 <= k < |entries| ==> Strip(entries[k].path, isSpace) == entries[k].path
    ensures Mentioned(entries, |entries|, id) <==> exists k :: 0 <= k < |entries| && TaskIdOf(entries[k].path, isSpace) == Some(id)
  {
    hide TaskId;
    hide TaskIdOf;
    forall k | 0 <= k < |entries| ensures TaskId(entries[k].path) == TaskIdOf(entries[k].path, isSpace) {
      assert entries[k].path in byPath;
      SameTaskId(entries[k].path, isSpace);
    }
  }
}
