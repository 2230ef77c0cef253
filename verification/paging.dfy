/** Loading the case feed page by page: the row window asked for each page,
    the de-duplicating merge of a fetched page into the accumulated list, the
    "more pages" flag, and the whole fetch step. */
module Paging {
  import opened Wrappers
  import opened Supabase

  const PageSize: nat := 10

  /** An inclusive window of row positions, as `.range(first, last)` takes it. */
  datatype Window = Window(first: int, last: int)

  predicate InWindow(w: Window, i: int) {
    w.first <= i <= w.last
  }

  /** The rows requested for page `page` (counted from 0). */
  function PageWindow(page: nat): (w: Window)
    ensures w.first == page * PageSize
    ensures w.last - w.first + 1 == PageSize
  {
    Window(page * PageSize, page * PageSize + PageSize - 1)
  }

  /** The windows tile the rows: row `i` is requested by exactly one page. */
  lemma PageWindowsTile(page: nat, i: nat)
    ensures InWindow(PageWindow(page), i) <==> page == i / PageSize
  {
    var w := PageWindow(page);
    if InWindow(w, i) {
      assert page * PageSize <= i < (page + 1) * PageSize;
    }
  }

  /** Consecutive pages are adjacent. */
  lemma PageWindowsAdjacent(page: nat)
    ensures PageWindow(page).last + 1 == PageWindow(page + 1).first
  {
  }

  // ----- identifiers -----

  predicate HasId(s: seq<Demand>, id: string) {
    exists j :: 0 <= j < |s| && s[j].id == id
  }

  predicate DistinctIds(s: seq<Demand>) {
    forall i, j :: 0 <= i < j < |s| ==> s[i].id != s[j].id
  }

  /** No entry has the empty id, the one JavaScript treats as false. */
  predicate TruthyIds(s: seq<Demand>) {
    forall i :: 0 <= i < |s| ==> s[i].id != ""
  }

  /** The last element of `s` with identifier `id`. */
  function LastWithId(s: seq<Demand>, id: string): (r: Option<Demand>)
    ensures r.Some? <==> HasId(s, id)
    ensures r.Some? ==> r.value.id == id && r.value in s
  {
    if |s| == 0 then None
    else if s[|s| - 1].id == id then Some(s[|s| - 1])
    else
      var r := LastWithId(s[..|s| - 1], id);
      assert HasId(s, id) ==> HasId(s[..|s| - 1], id) by {
        if HasId(s, id) {
          var j :| 0 <= j < |s| && s[j].id == id;
          assert s[..|s| - 1][j].id == id;
        }
      }
      r
  }

  /** The position of the first element of `s` with identifier `id`. */
  function FirstIndex(s: seq<Demand>, id: string): (i: nat)
    requires HasId(s, id)
    ensures i < |s| && s[i].id == id
    ensures forall j :: 0 <= j < i ==> s[j].id != id
  {
    var p := s[..|s| - 1];
    if HasId(p, id) then FirstIndex(p, id)
    else
      assert forall j :: 0 <= j < |p| ==> p[j].id != id;
      |s| - 1
  }

  // ----- the merge -----

  /** `byId.set(x.id, x)` on a `Map` held as its values in insertion order:
      an existing key keeps its place and takes the new value; a new key is
      appended. */
  function MapSet(m: seq<Demand>, x: Demand): seq<Demand> {
    if HasId(m, x.id) then m[FirstIndex(m, x.id) := x] else m + [x]
  }

  /** One turn of the merge loop: `if (item?.id) byId.set(item.id, item)`. */
  function Put(m: seq<Demand>, x: Demand): seq<Demand> {
    if x.id == "" then m else MapSet(m, x)
  }

  /** The merge loop run over `t`, starting from the map `m`. */
  function PutAll(m: seq<Demand>, t: seq<Demand>): seq<Demand> {
    if |t| == 0 then m else Put(PutAll(m, t[..|t| - 1]), t[|t| - 1])
  }

  /** Identifiers are non-empty and pairwise distinct. */
  predicate UniqueIds(r: seq<Demand>) {
    DistinctIds(r) && TruthyIds(r)
  }

  /** Exactly the non-empty identifiers of `s` occur in `r`. */
  ghost predicate SameIds(s: seq<Demand>, r: seq<Demand>) {
    forall id :: id != "" ==> (HasId(r, id) <==> HasId(s, id))
  }

  /** Each entry of `r` is the last record of `s` with its identifier. */
  ghost predicate LastValues(s: seq<Demand>, r: seq<Demand>) {
    forall k :: 0 <= k < |r| ==> LastWithId(s, r[k].id) == Some(r[k])
  }

  /** The entries of `r` come in the order their identifiers first occur in `s`. */
  ghost predicate FirstOrder(s: seq<Demand>, r: seq<Demand>) {
    forall k1, k2 :: 0 <= k1 < k2 < |r| && HasId(s, r[k1].id) && HasId(s, r[k2].id) ==>
      FirstIndex(s, r[k1].id) < FirstIndex(s, r[k2].id)
  }

  /** What the merge promises about its result `r` for the list `s`. */
  ghost predicate MergedFrom(s: seq<Demand>, r: seq<Demand>) {
    UniqueIds(r) && SameIds(s, r) && LastValues(s, r) && FirstOrder(s, r)
  }

  /** `Array.from(byId.values())` after the loop over `s`. */
  function ById(s: seq<Demand>): (r: seq<Demand>)
    ensures |r| <= |s|
    ensures MergedFrom(s, r)
  {
    ByIdMerges(s);
    PutAll([], s)
  }

  lemma {:induction false} ByIdMerges(s: seq<Demand>)
    ensures |PutAll([], s)| <= |s|
    ensures MergedFrom(s, PutAll([], s))
  {
    if |s| > 0 {
      var p, x := s[..|s| - 1], s[|s| - 1];
      assert p + [x] == s;
      ByIdMerges(p);
      assert PutAll([], s) == Put(PutAll([], p), x);
      PutStep(p, x, PutAll([], p));
    }
  }

  /** How identifiers of `p + [x]` relate to those of `p`. */
  lemma ExtendIds(p: seq<Demand>, x: Demand)
    ensures forall id :: HasId(p + [x], id) <==> HasId(p, id) || x.id == id
    ensures forall id :: HasId(p, id) ==> FirstIndex(p + [x], id) == FirstIndex(p, id)
    ensures !HasId(p, x.id) ==> FirstIndex(p + [x], x.id) == |p|
    ensures forall id :: LastWithId(p + [x], id) == if x.id == id then Some(x) else LastWithId(p, id)
  {
    var s := p + [x];
    assert s[..|s| - 1] == p;
    forall id | HasId(p, id)
      ensures HasId(s, id)
    {
      var j :| 0 <= j < |p| && p[j].id == id;
      assert s[j].id == id;
    }
    forall id
      ensures HasId(s, id) <==> HasId(p, id) || x.id == id
    {
      if HasId(s, id) {
        var j :| 0 <= j < |s| && s[j].id == id;
        if j < |p| { assert p[j].id == id; } else { assert x.id == id; }
      }
      if x.id == id { assert s[|s| - 1].id == id; }
    }
  }

  /** One loop turn keeps `MergedFrom`, for the list extended by `x`. */
  lemma PutStep(p: seq<Demand>, x: Demand, m: seq<Demand>)
    requires MergedFrom(p, m)
    ensures MergedFrom(p + [x], Put(m, x))
    ensures |Put(m, x)| <= |m| + 1
  {
    ExtendIds(p, x);
    if x.id == "" {
    } else if HasId(m, x.id) {
      PutReplaces(p, x, m);
    } else {
      PutAppends(p, x, m);
    }
  }

  lemma PutReplaces(p: seq<Demand>, x: Demand, m: seq<Demand>)
    requires MergedFrom(p, m)
    requires x.id != "" && HasId(m, x.id)
    ensures MergedFrom(p + [x], Put(m, x))
    ensures |Put(m, x)| == |m|
  {
    var i := FirstIndex(m, x.id);
    var r := m[i := x];
    assert Put(m, x) == r;
    assert forall k :: 0 <= k < |r| ==> r[k].id == m[k].id;
    ReplaceUnique(m, i, x);
    ReplaceSameIds(p, x, m, i);
    ReplaceLastValues(p, x, m, i);
    ReplaceFirstOrder(p, x, m, i);
  }

  lemma ReplaceUnique(m: seq<Demand>, i: nat, x: Demand)
    requires UniqueIds(m) && i < |m| && m[i].id == x.id
    ensures UniqueIds(m[i := x])
  {
  }

  lemma ReplaceSameIds(p: seq<Demand>, x: Demand, m: seq<Demand>, i: nat)
    requires SameIds(p, m) && i < |m| && m[i].id == x.id && x.id != ""
    ensures SameIds(p + [x], m[i := x])
  {
    ExtendIds(p, x);
    var r := m[i := x];
    forall id | id != "" ensures HasId(r, id) <==> HasId(m, id) {
      if HasId(m, id) {
        var j :| 0 <= j < |m| && m[j].id == id;
        assert r[j].id == id;
      }
      if HasId(r, id) {
        var j :| 0 <= j < |r| && r[j].id == id;
        assert m[j].id == id;
      }
    }
    assert HasId(m, x.id);
  }

  lemma ReplaceLastValues(p: seq<Demand>, x: Demand, m: seq<Demand>, i: nat)
    requires LastValues(p, m) && DistinctIds(m) && i < |m| && m[i].id == x.id
    ensures LastValues(p + [x], m[i := x])
  {
    ExtendIds(p, x);
    var r := m[i := x];
    forall k | 0 <= k < |r| ensures LastWithId(p + [x], r[k].id) == Some(r[k]) {
      if k != i {
        assert m[k].id != x.id;
        assert LastWithId(p, m[k].id) == Some(m[k]);
      }
    }
  }

  lemma ReplaceFirstOrder(p: seq<Demand>, x: Demand, m: seq<Demand>, i: nat)
    requires FirstOrder(p, m) && LastValues(p, m) && i < |m| && m[i].id == x.id
    ensures FirstOrder(p + [x], m[i := x])
  {
    ExtendIds(p, x);
    var r := m[i := x];
    forall k | 0 <= k < |m| ensures HasId(p, m[k].id) && r[k].id == m[k].id {
      assert LastWithId(p, m[k].id) == Some(m[k]);
    }
  }

  lemma PutAppends(p: seq<Demand>, x: Demand, m: seq<Demand>)
    requires MergedFrom(p, m)
    requires x.id != "" && !HasId(m, x.id)
    ensures MergedFrom(p + [x], Put(m, x))
    ensures |Put(m, x)| == |m| + 1
  {
    var r := m + [x];
    assert Put(m, x) == r;
    assert !HasId(p, x.id);
    forall k | 0 <= k < |m| ensures m[k].id != x.id {
      assert HasId(m, m[k].id);
    }
    assert UniqueIds(r);
    AppendSameIds(p, x, m);
    AppendLastValues(p, x, m);
    AppendFirstOrder(p, x, m);
  }

  lemma AppendSameIds(p: seq<Demand>, x: Demand, m: seq<Demand>)
    requires SameIds(p, m) && x.id != ""
    ensures SameIds(p + [x], m + [x])
  {
    ExtendIds(p, x);
    var r := m + [x];
    forall id | id != "" ensures HasId(r, id) <==> HasId(m, id) || x.id == id {
      if HasId(m, id) {
        var j :| 0 <= j < |m| && m[j].id == id;
        assert r[j].id == id;
      }
      if HasId(r, id) {
        var j :| 0 <= j < |r| && r[j].id == id;
        if j < |m| { assert m[j].id == id; }
      }
      if x.id == id { assert r[|m|].id == id; }
    }
  }

  lemma AppendLastValues(p: seq<Demand>, x: Demand, m: seq<Demand>)
    requires LastValues(p, m) && forall k :: 0 <= k < |m| ==> m[k].id != x.id
    ensures LastValues(p + [x], m + [x])
  {
    ExtendIds(p, x);
    var r := m + [x];
    forall k | 0 <= k < |r| ensures LastWithId(p + [x], r[k].id) == Some(r[k]) {
      if k < |m| {
        assert r[k] == m[k];
        assert LastWithId(p, m[k].id) == Some(m[k]);
      }
    }
  }

  lemma AppendFirstOrder(p: seq<Demand>, x: Demand, m: seq<Demand>)
    requires FirstOrder(p, m) && LastValues(p, m) && !HasId(p, x.id)
    ensures FirstOrder(p + [x], m + [x])
  {
    ExtendIds(p, x);
    var r := m + [x];
    forall k | 0 <= k < |m| ensures HasId(p, m[k].id) && r[k].id == m[k].id && FirstIndex(p, m[k].id) < |p| {
      assert LastWithId(p, m[k].id) == Some(m[k]);
    }
  }

  /** Running the loop over `s + t` is running it over `s`, then over `t`. */
  lemma {:induction false} PutAllAppend(m: seq<Demand>, s: seq<Demand>, t: seq<Demand>)
    ensures PutAll(m, s + t) == PutAll(PutAll(m, s), t)
  {
    if |t| == 0 {
      assert s + t == s;
    } else {
      var t', y := t[..|t| - 1], t[|t| - 1];
      assert (s + t)[..|s + t| - 1] == s + t';
      assert (s + t)[|s + t| - 1] == y;
      PutAllAppend(m, s, t');
    }
  }

  /** A list whose identifiers are already unique and non-empty merges to itself. */
  lemma {:induction false} ByIdOfUnique(m: seq<Demand>)
    requires UniqueIds(m)
    ensures ById(m) == m
  {
    if |m| > 0 {
      var p, x := m[..|m| - 1], m[|m| - 1];
      ByIdOfUnique(p);
      assert PutAll([], m) == Put(PutAll([], p), x);
      assert !HasId(p, x.id);
      assert p + [x] == m;
    }
  }

  /** Merging a page into an already merged list gives what merging the
      whole concatenation at once gives: the feed after any number of
      pages is the merge of all of them. */
  lemma MergeIncremental(a: seq<Demand>, b: seq<Demand>)
    ensures ById(ById(a) + b) == ById(a + b)
  {
    PutAllAppend([], ById(a), b);
    ByIdOfUnique(ById(a));
    PutAllAppend([], a, b);
  }

  // ----- the merge is determined by what it promises -----

  lemma HasIdAppend(a: seq<Demand>, b: seq<Demand>, id: string)
    ensures HasId(a + b, id) <==> HasId(a, id) || HasId(b, id)
  {
    if HasId(a, id) {
      var j :| 0 <= j < |a| && a[j].id == id;
      assert (a + b)[j].id == id;
    }
    if HasId(b, id) {
      var j :| 0 <= j < |b| && b[j].id == id;
      assert (a + b)[|a| + j].id == id;
    }
    if HasId(a + b, id) {
      var j :| 0 <= j < |a + b| && (a + b)[j].id == id;
      if j < |a| { assert a[j].id == id; } else { assert b[j - |a|].id == id; }
    }
  }

  /** The last record with an identifier in `a + b` comes from `b` when `b`
      has that identifier, and from `a` otherwise. */
  lemma {:induction false} LastWithIdAppend(a: seq<Demand>, b: seq<Demand>, id: string)
    ensures LastWithId(a + b, id) == if HasId(b, id) then LastWithId(b, id) else LastWithId(a, id)
  {
    if |b| == 0 {
      assert a + b == a;
    } else {
      var b', y := b[..|b| - 1], b[|b| - 1];
      assert b' + [y] == b;
      assert (a + b') + [y] == a + b;
      ExtendIds(a + b', y);
      ExtendIds(b', y);
      LastWithIdAppend(a, b', id);
    }
  }

  /** A position holding `id` with no earlier one is `FirstIndex`. */
  lemma FirstIndexIs(s: seq<Demand>, id: string, i: nat)
    requires i < |s| && s[i].id == id
    requires forall j :: 0 <= j < i ==> s[j].id != id
    ensures HasId(s, id) && FirstIndex(s, id) == i
  {
  }

  lemma FirstIndexAppend(a: seq<Demand>, b: seq<Demand>, id: string)
    requires HasId(a, id)
    ensures HasId(a + b, id) && FirstIndex(a + b, id) == FirstIndex(a, id)
  {
    var i := FirstIndex(a, id);
    FirstIndexIs(a + b, id, i);
  }

  /** With distinct identifiers, each record is found at its own position. */
  lemma DistinctLookup(m: seq<Demand>, k: nat)
    requires DistinctIds(m) && k < |m|
    ensures HasId(m, m[k].id)
    ensures FirstIndex(m, m[k].id) == k
    ensures LastWithId(m, m[k].id) == Some(m[k])
  {
    FirstIndexIs(m, m[k].id, k);
    var r := LastWithId(m, m[k].id);
    var j :| 0 <= j < |m| && m[j] == r.value;
  }

  /** Two non-empty lists with the same identifiers, the last values of `s`
      and its first-occurrence order start with the same record. */
  lemma HeadsAgree(s: seq<Demand>, r1: seq<Demand>, r2: seq<Demand>)
    requires |r1| > 0 && |r2| > 0
    requires forall id :: HasId(r1, id) <==> HasId(r2, id)
    requires LastValues(s, r1) && LastValues(s, r2)
    requires FirstOrder(s, r1) && FirstOrder(s, r2)
    ensures r1[0] == r2[0]
  {
    var a, b := r1[0], r2[0];
    assert HasId(r1, a.id) && HasId(r2, b.id);
    var j :| 0 <= j < |r2| && r2[j].id == a.id;
    var i :| 0 <= i < |r1| && r1[i].id == b.id;
    assert LastWithId(s, a.id) == Some(a);
    assert LastWithId(s, r2[j].id) == Some(r2[j]);
    assert LastWithId(s, b.id) == Some(b);
    assert LastWithId(s, r1[i].id) == Some(r1[i]);
  }

  /** Dropping the head keeps the promises about the rest. */
  lemma TailKeeps(s: seq<Demand>, r: seq<Demand>)
    requires |r| > 0 && DistinctIds(r) && LastValues(s, r) && FirstOrder(s, r)
    ensures DistinctIds(r[1..]) && LastValues(s, r[1..]) && FirstOrder(s, r[1..])
    ensures forall id :: HasId(r[1..], id) <==> HasId(r, id) && id != r[0].id
  {
    var t := r[1..];
    forall k | 0 <= k < |t| ensures LastWithId(s, t[k].id) == Some(t[k]) {
      assert t[k] == r[k + 1];
    }
    forall k1, k2 | 0 <= k1 < k2 < |t| && HasId(s, t[k1].id) && HasId(s, t[k2].id)
      ensures FirstIndex(s, t[k1].id) < FirstIndex(s, t[k2].id)
    {
      assert t[k1] == r[k1 + 1] && t[k2] == r[k2 + 1];
    }
    forall id ensures HasId(t, id) <==> HasId(r, id) && id != r[0].id {
      HasIdAppend([r[0]], t, id);
      assert [r[0]] + t == r;
      if HasId(t, id) {
        var k :| 0 <= k < |t| && t[k].id == id;
        assert r[k + 1].id == id;
      }
    }
  }

  /** Two lists with distinct identifiers, the same identifiers, the last
      values of `s` and the first-occurrence order of `s` are equal. */
  lemma {:induction false} OrderedLastValuesDetermine(s: seq<Demand>, r1: seq<Demand>, r2: seq<Demand>)
    requires DistinctIds(r1) && DistinctIds(r2)
    requires forall id :: HasId(r1, id) <==> HasId(r2, id)
    requires LastValues(s, r1) && LastValues(s, r2)
    requires FirstOrder(s, r1) && FirstOrder(s, r2)
    ensures r1 == r2
    decreases |r1|
  {
    if |r1| == 0 || |r2| == 0 {
      if |r1| > 0 { assert HasId(r1, r1[0].id); }
      if |r2| > 0 { assert HasId(r2, r2[0].id); }
    } else {
      HeadsAgree(s, r1, r2);
      TailKeeps(s, r1);
      TailKeeps(s, r2);
      OrderedLastValuesDetermine(s, r1[1..], r2[1..]);
      assert r1 == [r1[0]] + r1[1..] && r2 == [r2[0]] + r2[1..];
    }
  }

  /** `MergedFrom` pins the result down: `ById` is the only list that keeps
      all its promises. */
  lemma MergedFromIsById(s: seq<Demand>, r: seq<Demand>)
    requires MergedFrom(s, r)
    ensures r == ById(s)
  {
    OrderedLastValuesDetermine(s, r, ById(s));
  }

  /** Receiving a page again (the same rows re-delivered) leaves the merged
      list as one delivery left it. */
  lemma RedeliveryIsIdempotent(p: seq<Demand>, d: seq<Demand>)
    ensures ById(ById(p + d) + d) == ById(p + d)
  {
    var s := p + d;
    var m := ById(s);
    var t := m + d;
    forall id | id != "" ensures HasId(t, id) <==> HasId(m, id) {
      HasIdAppend(m, d, id);
      HasIdAppend(p, d, id);
    }
    forall k | 0 <= k < |m| ensures LastWithId(t, m[k].id) == Some(m[k]) {
      DistinctLookup(m, k);
      LastWithIdAppend(m, d, m[k].id);
      LastWithIdAppend(p, d, m[k].id);
    }
    forall k1, k2 | 0 <= k1 < k2 < |m| && HasId(t, m[k1].id) && HasId(t, m[k2].id)
      ensures FirstIndex(t, m[k1].id) < FirstIndex(t, m[k2].id)
    {
      DistinctLookup(m, k1);
      DistinctLookup(m, k2);
      FirstIndexAppend(m, d, m[k1].id);
      FirstIndexAppend(m, d, m[k2].id);
    }
    assert MergedFrom(t, m);
    MergedFromIsById(t, m);
  }

  /** The `setDemands` updater of `fetchDemands`: the fetched page replaces the
      list on the first load and is appended to it otherwise, then merged. */
  function MergePage(prev: seq<Demand>, data: seq<Demand>, initial: bool): (r: seq<Demand>)
    ensures MergedFrom(if initial then data else prev + data, r)
    ensures |r| <= |data| + (if initial then 0 else |prev|)
  {
    ById(if initial then data else prev + data)
  }

  // ----- the fetch step -----

  /** The feed state `fetchDemands` reads and writes. */
  datatype FeedState = FeedState(demands: seq<Demand>, hasMore: bool, error: Option<string>, loading: bool)

  /** What the backend returned for the page request. */
  datatype FetchReply =
    | BackendMissing                      // no client configured: offline mode
    | FetchFailed(message: Option<string>) // the query raised an error
    | Rows(data: seq<Demand>)              // the page's rows

  const DefaultFetchError := "Falha ao carregar demandas"

  /** `fetchDemands(initial)` once the reply is in. */
  function Fetch(f: FeedState, initial: bool, reply: FetchReply): (g: FeedState)
    ensures !g.loading
    ensures reply.BackendMissing? ==> g.demands == f.demands && !g.hasMore && g.error == f.error
    ensures reply.FetchFailed? ==>
      && g.demands == f.demands && g.hasMore == f.hasMore
      && g.error == Some(reply.message.GetOr(DefaultFetchError))
    ensures reply.Rows? ==>
      && MergedFrom(if initial then reply.data else f.demands + reply.data, g.demands)
      && (g.hasMore <==> |reply.data| == PageSize)
      && g.error.None?
  {
    match reply
    case BackendMissing => f.(loading := false, hasMore := false)
    case FetchFailed(message) => f.(error := Some(message.GetOr(DefaultFetchError)), loading := false)
    case Rows(data) =>
      f.(demands := MergePage(f.demands, data, initial), hasMore := |data| == PageSize,
         error := None, loading := false)
  }

  /** Every fetch step keeps the feed's identifiers unique and non-empty. */
  lemma FetchKeepsUniqueIds(f: FeedState, initial: bool, reply: FetchReply)
    requires UniqueIds(f.demands)
    ensures UniqueIds(Fetch(f, initial, reply).demands)
  {
  }

  /** Successive pages: if the feed holds the merge of the rows fetched so far,
      after a further page it holds the merge of those rows and the page. */
  lemma FetchAccumulates(f: FeedState, earlier: seq<Demand>, data: seq<Demand>)
    requires f.demands == ById(earlier)
    ensures Fetch(f, false, Rows(data)).demands == ById(earlier + data)
  {
    MergeIncremental(earlier, data);
  }

  /** Fetching the same page twice ends where fetching it once does. */
  lemma RefetchIsIdempotent(f: FeedState, data: seq<Demand>)
    ensures var g := Fetch(f, false, Rows(data));
      Fetch(g, false, Rows(data)) == g
  {
    RedeliveryIsIdempotent(f.demands, data);
  }
}
