/** `get_or_build_index`: a least-recently-used cache of 64 indexes. A call takes the lock twice, to look
    up and to store, and builds in between without it; calls interleave at that granularity. */
module IndexCache {
  import opened Wrappers
  import Sorting

  type Digest = string

  const CAPACITY: nat := 64

  // ---- the reference: recency without a bound ----------------------------------------------------

  function Remove(s: seq<Digest>, d: Digest): seq<Digest> {
    if s == [] then [] else if s[0] == d then s[1..] else [s[0]] + Remove(s[1..], d)
  }

  /** `move_to_end`, or insertion at the end. */
  function Use(order: seq<Digest>, d: Digest): seq<Digest> {
    Remove(order, d) + [d]
  }

  /** Every digest ever used, the most recently used last. */
  function Recency(uses: seq<Digest>): seq<Digest> {
    if uses == [] then [] else Use(Recency(uses[..|uses| - 1]), uses[|uses| - 1])
  }

  function LastOf(s: seq<Digest>, n: nat): seq<Digest> {
    if |s| <= n then s else s[|s| - n..]
  }

  lemma {:induction false} RemoveFacts(s: seq<Digest>, d: Digest)
    requires Sorting.Distinct(s)
    ensures var r := Remove(s, d);
            && Sorting.Distinct(r) && d !in r && (forall x :: x in r <==> x in s && x != d)
            && |r| == if d in s then |s| - 1 else |s|
  {
    if s != [] {
      assert s == [s[0]] + s[1..] && Sorting.Distinct(s[1..]) by {
        forall i, j | 0 <= i < j < |s[1..]| ensures s[1..][i] != s[1..][j] { assert s[i + 1] != s[j + 1]; }
      }
      assert s[0] !in s[1..];
      if s[0] != d {
        RemoveFacts(s[1..], d);
        var r := Remove(s[1..], d);
        assert Remove(s, d) == [s[0]] + r;
        assert s[0] !in r;
      }
    }
  }

  lemma {:induction false} RemoveBehind(a: seq<Digest>, b: seq<Digest>, d: Digest)
    requires d !in a
    ensures Remove(a + b, d) == a + Remove(b, d)
  {
    if a == [] {
      assert a + b == b;
    } else {
      RemoveBehind(a[1..], b, d);
      assert (a + b)[1..] == a[1..] + b;
    }
  }

  lemma {:induction false} RemoveBefore(a: seq<Digest>, b: seq<Digest>, d: Digest)
    requires d in a
    ensures Remove(a + b, d) == Remove(a, d) + b
  {
    assert (a + b)[1..] == a[1..] + b;
    if a[0] != d {
      RemoveBefore(a[1..], b, d);
      assert Remove(a, d) == [a[0]] + Remove(a[1..], d);
    }
  }

  lemma {:induction false} RemoveAbsent(s: seq<Digest>, d: Digest)
    requires d !in s
    ensures Remove(s, d) == s
  {
    if s != [] { RemoveAbsent(s[1..], d); }
  }

  lemma UseDistinct(s: seq<Digest>, d: Digest)
    requires Sorting.Distinct(s)
    ensures Sorting.Distinct(Use(s, d)) && (forall x :: x in Use(s, d) <==> x in s || x == d)
    ensures |Use(s, d)| == if d in s then |s| else |s| + 1
  {
    RemoveFacts(s, d);
  }

  lemma {:induction false} RecencyDistinct(uses: seq<Digest>)
    ensures Sorting.Distinct(Recency(uses)) && forall x :: x in Recency(uses) <==> x in uses
  {
    if uses != [] {
      RecencyDistinct(uses[..|uses| - 1]);
      UseDistinct(Recency(uses[..|uses| - 1]), uses[|uses| - 1]);
      assert uses == uses[..|uses| - 1] + [uses[|uses| - 1]];
    }
  }

  lemma LastOfAppend(a: seq<Digest>, o: seq<Digest>, n: nat)
    requires |o| >= n
    ensures LastOf(a + o, n) == LastOf(o, n)
  {
  }

  /** Using a digest commutes with forgetting all but the `n` most recent ones. */
  lemma UseThenForget(r: seq<Digest>, d: Digest, n: nat)
    requires Sorting.Distinct(r) && n >= 1
    ensures LastOf(Use(LastOf(r, n), d), n) == LastOf(Use(r, d), n)
  {
    var o := LastOf(r, n);
    if |r| > n {
      var pre := r[..|r| - n];
      assert r == pre + o;
      if d in pre {
        RemoveBefore(pre, o, d);
        assert d !in o by {
          var i :| 0 <= i < |pre| && pre[i] == d;
          forall j | 0 <= j < |o| ensures o[j] != d { assert r[i] != r[|pre| + j]; }
        }
        RemoveAbsent(o, d);
        assert Use(r, d) == Remove(pre, d) + (o + [d]);
        LastOfAppend(Remove(pre, d), o + [d], n);
      } else {
        RemoveBehind(pre, o, d);
        assert Use(r, d) == pre + Use(o, d);
        UseLength(o, d);
        LastOfAppend(pre, Use(o, d), n);
      }
    }
  }

  lemma {:induction false} UseLength(s: seq<Digest>, d: Digest)
    ensures |Use(s, d)| >= |s|
  {
    if s != [] && s[0] != d { UseLength(s[1..], d); }
  }

  // ---- the cache ------------------------------------------------------------------------------------

  /** The ordered dictionary; `uses` is the history of hits and stores. */
  class Cache<I> {
    var order: seq<Digest>
    var index: map<Digest, I>
    ghost var uses: seq<Digest>

    /** The cache holds exactly the 64 most recently used digests, in order of use. */
    ghost predicate Valid()
      reads this
    {
      && order == LastOf(Recency(uses), CAPACITY)
      && Mirrors(order, index)
    }

    constructor ()
      ensures Valid() && uses == [] && index == map[]
    {
      order, index, uses := [], map[], [];
    }

    /** The first locked region. */
    method Lookup(d: Digest) returns (hit: Option<I>)
      requires Valid()
      modifies this
      ensures Valid() && index == old(index) && |order| <= CAPACITY
      ensures hit == if d in old(index) then Some(old(index)[d]) else None
      ensures uses == if d in old(index) then old(uses) + [d] else old(uses)
    {
      if d !in index { return None; }
      Used(d);
      UseDistinct(order, d);
      order := Use(order, d);
      uses := uses + [d];
      return Some(index[d]);
    }

    /** What the order becomes when `d` is used: the reference order, with nothing lost yet. */
    lemma Used(d: Digest)
      requires Valid()
      ensures LastOf(Recency(uses + [d]), CAPACITY) == LastOf(Use(order, d), CAPACITY)
    {
      RecencyDistinct(uses);
      assert (uses + [d])[..|uses|] == uses;
      UseThenForget(Recency(uses), d, CAPACITY);
    }

    /** The second locked region: insert, move to the end, evict from the front. */
    method Store(d: Digest, value: I)
      requires Valid()
      modifies this
      ensures Valid() && uses == old(uses) + [d] && |order| <= CAPACITY
      ensures d in index && index[d] == value
      ensures forall k :: k in index && k != d ==> k in old(index) && index[k] == old(index)[k]
    {
      hide Recency;
      hide Use;
      Used(d);
      UseDistinct(order, d);
      assert d in Use(order, d);
      UseLast(order, d);
      index := index[d := value];
      order := Use(order, d);
      uses := uses + [d];
      assert Mirrors(order, index);
      Evict();
    }

    /** `while len(cache) > 64: cache.popitem(last=False)`. */
    method Evict()
      requires Mirrors(order, index) && order != []
      modifies this`order, this`index
      ensures order == LastOf(old(order), CAPACITY) && Mirrors(order, index) && Within(index, old(index))
      ensures order != [] && order[|order| - 1] == old(order)[|old(order)| - 1]
    {
      hide Mirrors;
      hide Within;
      ghost var full, was := order, index;
      WithinItself(index);
      while |order| > CAPACITY
        invariant 0 < |order| <= |full| && order == full[|full| - |order|..]
        invariant |order| >= CAPACITY || order == full
        invariant Mirrors(order, index) && Within(index, was)
        decreases |order|
      {
        var oldest := order[0];
        DropOldest(order, index, was);
        order := order[1..];
        index := map k | k in index && k != oldest :: index[k];
      }
    }
  }

  lemma UseLast(order: seq<Digest>, d: Digest)
    ensures Use(order, d) != [] && Use(order, d)[|Use(order, d)| - 1] == d
  {
  }

  /** The order lists each key of the dictionary once. */
  ghost predicate Mirrors<I>(order: seq<Digest>, index: map<Digest, I>) {
    Sorting.Distinct(order) && forall d :: d in order <==> d in index
  }

  ghost predicate Within<I>(small: map<Digest, I>, big: map<Digest, I>) {
    forall k :: k in small ==> k in big && small[k] == big[k]
  }

  lemma WithinItself<I>(index: map<Digest, I>)
    ensures Within(index, index)
  {
  }

  lemma DropOldest<I>(order: seq<Digest>, index: map<Digest, I>, was: map<Digest, I>)
    requires order != [] && Mirrors(order, index) && Within(index, was)
    ensures var rest := map k | k in index && k != order[0] :: index[k];
            Mirrors(order[1..], rest) && Within(rest, was)
  {
    assert order == [order[0]] + order[1..];
    forall i, j | 0 <= i < j < |order[1..]| ensures order[1..][i] != order[1..][j] { assert order[i + 1] != order[j + 1]; }
    forall j | 0 <= j < |order[1..]| ensures order[1..][j] != order[0] { assert order[0] != order[j + 1]; }
  }

  // ---- calls, interleaved ---------------------------------------------------------------------------

  /** Where a call stands: about to look up, building, or over. A build that raises stores nothing. */
  datatype Call<+I> = Looking | Building | Returned(value: I) | Raised

  /** How often the schedule lets call `i` move. */
  function Turns(schedule: seq<nat>, i: nat): nat {
    if schedule == [] then 0
    else Turns(schedule[..|schedule| - 1], i) + if schedule[|schedule| - 1] == i then 1 else 0
  }

  lemma NoTurnsYet(schedule: seq<nat>)
    ensures forall j: nat :: Turns(schedule[..0], j) == 0
  {
  }

  lemma OneMoreTurn(schedule: seq<nat>, k: nat, i: nat)
    requires k < |schedule|
    ensures Turns(schedule[..k + 1], i) == Turns(schedule[..k], i) + if schedule[k] == i then 1 else 0
  {
    assert schedule[..k + 1][..k] == schedule[..k];
  }

  /** A call looks up in its first turn, and is over after its second. */
  predicate InStep<I>(call: Call<I>, turns: nat) {
    if turns == 0 then call.Looking? else if turns == 1 then !call.Looking? else call.Returned? || call.Raised?
  }

  /** Any number of calls under any schedule of their locked regions. With one archive per digest, every
      call that returns gives what building its archive gives, from cache or not, and after every region
      the cache holds the 64 most recently used digests. */
  method Interleave<A, I>(cache: Cache<I>, digests: seq<Digest>, archive: Digest -> A, build: A -> Option<I>, schedule: seq<nat>)
    returns (calls: seq<Call<I>>)
    requires cache.Valid()
    requires forall d :: d in cache.index ==> build(archive(d)) == Some(cache.index[d])
    modifies cache
    ensures cache.Valid() && |cache.order| <= 64
    ensures forall d :: d in cache.index ==> build(archive(d)) == Some(cache.index[d])
    ensures |calls| == |digests|
    ensures forall i :: 0 <= i < |calls| && calls[i].Returned? ==> build(archive(digests[i])) == Some(calls[i].value)
    ensures forall i :: 0 <= i < |calls| && calls[i].Raised? ==> build(archive(digests[i])) == None
    ensures forall i :: 0 <= i < |calls| ==> InStep(calls[i], Turns(schedule, i))
  {
    hide Turns;
    hide Mirrors;
    hide Recency;
    calls := seq(|digests|, _ => Looking);
    NoTurnsYet(schedule);
    for step := 0 to |schedule|
      invariant cache.Valid() && |calls| == |digests|
      invariant forall d :: d in cache.index ==> build(archive(d)) == Some(cache.index[d])
      invariant forall i :: 0 <= i < |calls| && calls[i].Returned? ==> build(archive(digests[i])) == Some(calls[i].value)
      invariant forall i :: 0 <= i < |calls| && calls[i].Raised? ==> build(archive(digests[i])) == None
      invariant forall j :: 0 <= j < |calls| ==> InStep(calls[j], Turns(schedule[..step], j))
    {
      forall j: nat ensures Turns(schedule[..step + 1], j) == Turns(schedule[..step], j) + if schedule[step] == j then 1 else 0 {
        OneMoreTurn(schedule, step, j);
      }
      var i := schedule[step];
      if i < |calls| {
        match calls[i]
        case Looking =>
          var hit := cache.Lookup(digests[i]);
          calls := calls[i := if hit.Some? then Returned(hit.value) else Building];
        case Building =>
          var built := build(archive(digests[i]));
          if built.Some? {
            cache.Store(digests[i], built.value);
            calls := calls[i := Returned(built.value)];
          } else {
            calls := calls[i := Raised];
          }
        case _ =>
      }
    }
    assert schedule[..|schedule|] == schedule;
  }
}
