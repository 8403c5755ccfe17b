/** The allocator of src/ext/OpenBSD_malloc_Linux.c as callers see it: `malloc_make_chunks`,
    `malloc_bytes` and `free_bytes`, which serve requests of at most half a page from pages of
    equal chunks; `imalloc` and `ifree`, for these and for blocks of pages; and a program that
    uses them. */
module Chunks {
  import opened PageDirectory
  import opened PageAllocator
  import opened FreeList
  import opened ChunkPage

  // ----- addresses

  /** `index2ptr` */
  function PageAddr(p: nat): nat
    requires SHIFT <= p
  {
    (p - SHIFT) * PAGE
  }

  /** `ptr2index` */
  function PageOf(a: nat): (p: nat)
    ensures SHIFT <= p
  {
    a / PAGE + SHIFT
  }

  /** The chunk at this offset of a page, if one starts there. */
  function ChunkAt(b: nat, offset: nat): nat {
    Shr(offset, ShiftOf(b))
  }

  /** The low k bits of x. */
  function LowBits(x: nat, k: nat): nat {
    if k == 0 then 0 else 2 * LowBits(x / 2, k - 1) + x % 2
  }

  predicate Aligned(b: nat, offset: nat) {
    LowBits(offset, ShiftOf(b)) == 0
  }

  function Offset(b: nat, q: nat): nat {
    q * Pow2(ShiftOf(b))
  }

  lemma Double(q: nat, p: nat)
    ensures q * (2 * p) == 2 * (q * p)
  {
  }

  lemma {:induction false} ShrProduct(q: nat, k: nat)
    ensures Shr(q * Pow2(k), k) == q
  {
    if k != 0 {
      Double(q, Pow2(k - 1));
      ShrProduct(q, k - 1);
    }
  }

  /** An address is its chunk and what is left. */
  lemma {:induction false} ShrSplit(x: nat, k: nat)
    ensures Shr(x, k) * Pow2(k) + LowBits(x, k) == x
  {
    if k != 0 {
      ShrSplit(x / 2, k - 1);
      Double(Shr(x / 2, k - 1), Pow2(k - 1));
    }
  }

  lemma Below(q: nat, n: nat, p: nat)
    requires q < n
    ensures q * p + p <= n * p
  {
    assert (q + 1) * p == q * p + p;
    Multiply(q + 1, n, p);
  }

  lemma ChunkOffset(b: nat, q: nat)
    requires IsBucket(b) && q < Positions(b)
    ensures Offset(b, q) + Pow2(ShiftOf(b)) <= PAGE && Aligned(b, Offset(b, q)) && ChunkAt(b, Offset(b, q)) == q
  {
    hide Pow2, Positions, Stolen, InPage, Shr, LowBits, WordsOf, ShiftOf, AdminSize;
    BucketTable(b);
    Below(q, Positions(b), Pow2(ShiftOf(b)));
    ShrProduct(q, ShiftOf(b));
    ShrSplit(Offset(b, q), ShiftOf(b));
  }

  lemma OffsetOf(b: nat, offset: nat)
    requires IsBucket(b) && offset < PAGE
    ensures ChunkAt(b, offset) < Positions(b)
    ensures Aligned(b, offset) ==> Offset(b, ChunkAt(b, offset)) == offset
  {
    hide Pow2, Positions, Stolen, InPage, Shr;
    BucketTable(b);
    ShrSplit(offset, ShiftOf(b));
    if ChunkAt(b, offset) >= Positions(b) {
      Multiply(Positions(b), ChunkAt(b, offset), Pow2(ShiftOf(b)));
    }
  }

  function ChunkAddr(p: nat, b: nat, q: nat): nat
    requires SHIFT <= p
  {
    PageAddr(p) + Offset(b, q)
  }

  lemma AddrParts(p: nat, b: nat, q: nat)
    requires SHIFT <= p && IsBucket(b) && q < Positions(b)
    ensures var a := ChunkAddr(p, b, q);
            PageOf(a) == p && a % PAGE == Offset(b, q) && Aligned(b, a % PAGE) && ChunkAt(b, a % PAGE) == q
  {
    ChunkOffset(b, q);
    hide Offset, Aligned, ChunkAt, Positions, ShiftOf;
  }

  lemma AddrBack(a: nat, b: nat)
    requires IsBucket(b) && Aligned(b, a % PAGE)
    ensures ChunkAt(b, a % PAGE) < Positions(b) && ChunkAddr(PageOf(a), b, ChunkAt(b, a % PAGE)) == a
  {
    OffsetOf(b, a % PAGE);
    hide Offset, Aligned, ChunkAt, Positions, ShiftOf;
  }

  // ----- what the pages of chunks stand for

  /** A page of chunks: where its `struct pginfo` is, its bucket, and the chunks that are
      handed out. */
  datatype Chunked = Chunked(at: nat, bucket: nat, live: set<nat>)

  type Table = map<nat, Chunked>

  /** How deep `malloc_make_chunks` can be nested for this bucket: where its `struct pginfo`
      has to be allocated, the bucket for that has a lower rank. */
  function Rank(b: nat): nat {
    if b == 0 then 2 else if InPage(b) then 0 else 1
  }

  /** A chunk starts at `a`, and it is handed out. */
  ghost predicate IsLive(t: Table, a: nat) {
    var p := PageOf(a);
    p in t && Aligned(t[p].bucket, a % PAGE) && ChunkAt(t[p].bucket, a % PAGE) in t[p].live
  }

  /** The `struct pginfo` of page p is at its own place. */
  ghost predicate IsHome(t: Table, p: nat, a: nat) {
    p in t && t[p].at == a
  }

  /** The chunk at `a` was handed out by `malloc_bytes`, and not for a `struct pginfo`. */
  ghost predicate Handed(t: Table, a: nat) {
    IsLive(t, a) && forall p {:trigger IsHome(t, p, a)} :: !IsHome(t, p, a)
  }

  /** The `struct pginfo` of a page is at the start of that page, or is itself a chunk of a
      page of another bucket. */
  ghost predicate Housed(t: Table, p: nat)
    requires p in t
  {
    var c := t[p];
    && SHIFT <= p && IsBucket(c.bucket) && c.live <= ChunkPage.Chunks(c.bucket)
    && (if InPage(c.bucket) then c.at == PageAddr(p)
        else IsLive(t, c.at) && Rank(t[PageOf(c.at)].bucket) < Rank(c.bucket))
  }

  ghost predicate Placed(t: Table) {
    && (forall p {:trigger Housed(t, p)} {:trigger t[p]} :: p in t ==> Housed(t, p))
    && (forall p, q {:trigger t[p].at, t[q].at} :: p in t && q in t && t[p].at == t[q].at ==> p == q)
  }

  /** A chunk of a page is no `struct pginfo`, and not where one is, before it is handed out. */
  lemma NotHome(t: Table, p: nat, q: nat)
    requires Placed(t) && p in t && q in ChunkPage.Chunks(t[p].bucket) - t[p].live
    ensures var a := ChunkAddr(p, t[p].bucket, q); !IsLive(t, a) && forall r :: !IsHome(t, r, a)
  {
    assert Housed(t, p);
    var b := t[p].bucket;
    var a := ChunkAddr(p, b, q);
    AddrParts(p, b, q);
    hide Aligned, ChunkAt, Offset, Positions, Rank, InPage;
    if r :| IsHome(t, r, a) {
      assert Housed(t, r);
      HeaderIsNoChunk(r, b, q);
      BucketTable(b);
    }
  }

  lemma HeaderIsNoChunk(p: nat, b: nat, q: nat)
    requires SHIFT <= p && IsBucket(b) && q in ChunkPage.Chunks(b) && InPage(b)
    ensures PageAddr(p) + AdminSize(b) <= ChunkAddr(p, b, q)
  {
    hide Positions, Stolen, InPage, Pow2, Shr, AdminSize;
    BucketTable(b);
    Multiply(Stolen(b), q, Pow2(ShiftOf(b)));
  }

  // ----- the four changes of a table

  ghost function Marked(t: Table, p: nat, live: set<nat>): Table
    requires p in t
  {
    t[p := t[p].(live := live)]
  }

  /** A chunk is handed out. */
  lemma Taken(t: Table, p: nat, q: nat)
    requires Placed(t) && p in t && SHIFT <= p && q in ChunkPage.Chunks(t[p].bucket) - t[p].live
    ensures var t' := Marked(t, p, t[p].live + {q}); var a := ChunkAddr(p, t[p].bucket, q);
            Placed(t') && !IsLive(t, a) && IsLive(t', a) && PageOf(a) == p &&
            (forall x :: IsLive(t, x) ==> IsLive(t', x)) && forall x :: Handed(t', x) <==> Handed(t, x) || x == a
  {
    var t', a := Marked(t, p, t[p].live + {q}), ChunkAddr(p, t[p].bucket, q);
    NotHome(t, p, q);
    assert Housed(t, p);
    Changed(t, p, t[p].live + {q}, q);
    AddrParts(p, t[p].bucket, q);
    hide ChunkAt, Offset, Aligned, Positions, Rank, InPage, ChunkPage.Chunks, IsLive;
    forall x
      ensures Handed(t', x) <==> Handed(t, x) || x == a
    {
      SameHomes(t, t', x);
    }
    MarkedPlaced(t, p, t[p].live + {q});
  }

  /** A chunk that was handed out is free again. */
  lemma GivenBack(t: Table, p: nat, q: nat)
    requires Placed(t) && p in t && SHIFT <= p && q in t[p].live && Handed(t, ChunkAddr(p, t[p].bucket, q))
    ensures var t' := Marked(t, p, t[p].live - {q}); var a := ChunkAddr(p, t[p].bucket, q);
            Placed(t') && forall x :: Handed(t', x) <==> Handed(t, x) && x != a
  {
    var t', a := Marked(t, p, t[p].live - {q}), ChunkAddr(p, t[p].bucket, q);
    assert Housed(t, p);
    Changed(t, p, t[p].live - {q}, q);
    hide ChunkAt, Offset, Aligned, Positions, Rank, InPage, ChunkPage.Chunks, IsLive;
    forall x
      ensures Handed(t', x) <==> Handed(t, x) && x != a
    {
      SameHomes(t, t', x);
    }
    forall r | r in t
      ensures t[r].at != a
    {
      assert !IsHome(t, r, a);
    }
    MarkedPlaced(t, p, t[p].live - {q});
  }

  lemma Known(t: Table, p: nat, q: nat)
    requires Placed(t) && p in t
    ensures SHIFT <= p && IsBucket(t[p].bucket) && t[p].live <= ChunkPage.Chunks(t[p].bucket)
    ensures q in ChunkPage.Chunks(t[p].bucket) ==> Stolen(t[p].bucket) <= q < Positions(t[p].bucket)
  {
    hide Positions, Stolen;
    assert Housed(t, p);
  }

  /** Page p with another set of live chunks, which differ at q at most. */
  lemma Changed(t: Table, p: nat, live: set<nat>, q: nat)
    requires Placed(t) && p in t && SHIFT <= p && q in ChunkPage.Chunks(t[p].bucket) && t[p].live - {q} == live - {q}
    ensures var a := ChunkAddr(p, t[p].bucket, q);
            (IsLive(Marked(t, p, live), a) <==> q in live) && (IsLive(t, a) <==> q in t[p].live) &&
            forall x: nat {:trigger IsLive(Marked(t, p, live), x)} {:trigger IsLive(t, x)} :: x != a ==> (IsLive(Marked(t, p, live), x) <==> IsLive(t, x))
  {
    hide ChunkAt, Offset, Aligned, Positions, ChunkPage.Chunks, Placed, PageAddr, PageOf, IsBucket;
    var t' := Marked(t, p, live);
    var b := t[p].bucket;
    Known(t, p, q);
    AddrParts(p, b, q);
    forall x: nat | x != ChunkAddr(p, b, q)
      ensures IsLive(t', x) <==> IsLive(t, x)
    {
      if PageOf(x) == p && Aligned(b, x % PAGE) {
        AddrBack(x, b);
        var i := ChunkAt(b, x % PAGE);
        assert i in live - {q} <==> i in t[p].live - {q};
      }
    }
  }

  lemma SameHomes(t: Table, t': Table, x: nat)
    requires t'.Keys == t.Keys && forall p {:trigger t[p].at} {:trigger t'[p].at} :: p in t ==> t[p].at == t'[p].at
    ensures (forall p {:trigger IsHome(t', p, x)} :: !IsHome(t', p, x)) <==> (forall p {:trigger IsHome(t, p, x)} :: !IsHome(t, p, x))
  {
    if r :| IsHome(t, r, x) {
      assert IsHome(t', r, x);
    }
    if r :| IsHome(t', r, x) {
      assert IsHome(t, r, x);
    }
  }

  lemma MarkedPlaced(t: Table, p: nat, live: set<nat>)
    requires Placed(t) && p in t && live <= ChunkPage.Chunks(t[p].bucket)
    requires forall r {:trigger t[r].at} :: r in t && !InPage(t[r].bucket) ==> IsLive(Marked(t, p, live), t[r].at)
    ensures Placed(Marked(t, p, live))
  {
    hide IsLive, Rank, InPage, ChunkPage.Chunks, PageAddr, PageOf, IsBucket, Housed;
    var t' := Marked(t, p, live);
    forall r | r in t'
      ensures Housed(t', r)
    {
      assert Housed(t, r);
      Known(t, r, 0);
      StillHoused(t, t', r);
    }
  }

  lemma StillHoused(t: Table, t': Table, r: nat)
    requires r in t && r in t' && Housed(t, r) && t'[r].at == t[r].at && t'[r].bucket == t[r].bucket
    requires t'[r].live <= ChunkPage.Chunks(t[r].bucket)
    requires !InPage(t[r].bucket) ==> IsLive(t', t[r].at) && (PageOf(t[r].at) in t ==> t'[PageOf(t[r].at)].bucket == t[PageOf(t[r].at)].bucket)
    ensures Housed(t', r)
  {
    hide Rank, InPage, PageAddr, PageOf, IsBucket, Aligned, ChunkAt;
  }

  /** A page starts with a position that its own `struct pginfo` covers. */
  lemma HeaderStart(b: nat)
    requires IsBucket(b) && InPage(b)
    ensures Aligned(b, 0) && ChunkAt(b, 0) < Stolen(b)
  {
    ShrSplit(0, ShiftOf(b));
    BucketTable(b);
    ShrProduct(0, ShiftOf(b));
    assert 0 * Pow2(ShiftOf(b)) == 0;
    hide Shr, LowBits, Stolen, Positions, Pow2, InPage, ShiftOf;
  }

  /** If the chunk that a `struct pginfo` is in is marked free, that struct has no place any
      more. */
  lemma InfoFreed(t: Table, p: nat)
    requires Placed(t) && p in t && !InPage(t[p].bucket)
    ensures var h := PageOf(t[p].at); h in t && !Placed(Marked(t, h, t[h].live - {ChunkAt(t[h].bucket, t[p].at % PAGE)}))
  {
    hide Rank, InPage, PageOf, Aligned, ChunkAt, ChunkPage.Chunks, IsBucket, PageAddr;
    assert Housed(t, p);
    var h := PageOf(t[p].at);
    var t' := Marked(t, h, t[h].live - {ChunkAt(t[h].bucket, t[p].at % PAGE)});
    assert !IsLive(t', t[p].at);
    assert p in t' && t'[p].at == t[p].at && t'[p].bucket == t[p].bucket;
    assert !Housed(t', p);
  }

  /** A page becomes a page of chunks. */
  ghost function Added(t: Table, p: nat, at: nat, b: nat): Table {
    t[p := Chunked(at, b, {})]
  }

  /** The address of the new `struct pginfo`, if it was allocated, stops counting as handed
      out. */
  lemma PageAdded(t: Table, p: nat, at: nat, b: nat)
    requires Placed(t) && p !in t && SHIFT <= p && IsBucket(b)
    requires if InPage(b) then at == PageAddr(p) else Handed(t, at) && Rank(t[PageOf(at)].bucket) < Rank(b)
    ensures Placed(Added(t, p, at, b)) && forall x :: Handed(Added(t, p, at, b), x) <==> Handed(t, x) && x != at
    ensures (InPage(b) ==> !IsLive(t, at)) && forall x :: IsLive(t, x) ==> IsLive(Added(t, p, at, b), x)
  {
    hide Rank, InPage, PageOf, Aligned, ChunkAt, ChunkPage.Chunks, IsBucket;
    var t' := Added(t, p, at, b);
    if InPage(b) {
      PageOfAddr(p);
      assert !IsLive(t, at);
    }
    hide PageAddr;
    LiveAfterAdd(t, p, at, b);
    FreshHome(t, p, at, b);
    hide IsLive;
    forall r | r in t'
      ensures Housed(t', r)
    {
      if r != p {
        assert Housed(t, r);
        StillHoused(t, t', r);
      }
    }
    forall x
      ensures Handed(t', x) <==> Handed(t, x) && x != at
    {
      AddedHome(t, p, at, b, x);
    }
  }

  lemma PageOfAddr(p: nat)
    requires SHIFT <= p
    ensures PageOf(PageAddr(p)) == p && PageAddr(p) % PAGE == 0
  {
  }

  lemma LiveAfterAdd(t: Table, p: nat, at: nat, b: nat)
    requires p !in t
    ensures forall x: nat {:trigger IsLive(Added(t, p, at, b), x)} {:trigger IsLive(t, x)} :: IsLive(Added(t, p, at, b), x) <==> IsLive(t, x)
  {
    hide PageOf, Aligned, ChunkAt;
  }

  /** No `struct pginfo` is where the new one is. */
  lemma FreshHome(t: Table, p: nat, at: nat, b: nat)
    requires Placed(t) && p !in t && SHIFT <= p
    requires if InPage(b) then at == PageAddr(p) else Handed(t, at)
    ensures forall r {:trigger t[r].at} :: r in t ==> t[r].at != at
  {
    hide Rank, InPage, Aligned, ChunkAt, ChunkPage.Chunks, IsBucket, PageOf, PageAddr;
    PageOfAddr(p);
    forall r | r in t
      ensures t[r].at != at
    {
      assert Housed(t, r);
      assert IsHome(t, r, at) <==> t[r].at == at;
      PageOfAddr(r);
    }
  }

  lemma AddedHome(t: Table, p: nat, at: nat, b: nat, x: nat)
    requires p !in t
    ensures var t' := Added(t, p, at, b);
            (forall r {:trigger IsHome(t', r, x)} :: !IsHome(t', r, x)) <==> x != at && (forall r {:trigger IsHome(t, r, x)} :: !IsHome(t, r, x))
  {
    var t' := Added(t, p, at, b);
    assert IsHome(t', p, at);
    if r :| IsHome(t, r, x) {
      assert IsHome(t', r, x);
    }
    if r :| IsHome(t', r, x) {
      assert r == p || IsHome(t, r, x);
    }
  }

  /** A page of chunks, none of which is handed out, stops being one.  The chunk that its
      `struct pginfo` was allocated in counts as handed out again. */
  lemma PageRemoved(t: Table, p: nat)
    requires Placed(t) && p in t && t[p].live == {}
    ensures Placed(t - {p})
    ensures forall x :: Handed(t - {p}, x) <==> Handed(t, x) || (x == t[p].at && !InPage(t[p].bucket))
    ensures !InPage(t[p].bucket) ==> PageOf(t[p].at) in t - {p} && Rank((t - {p})[PageOf(t[p].at)].bucket) < Rank(t[p].bucket)
  {
    hide Rank, InPage, PageOf, Aligned, ChunkAt, ChunkPage.Chunks, IsBucket, PageAddr;
    var t' := t - {p};
    assert Housed(t, p);
    LiveAfterRemove(t, p);
    forall r | r in t'
      ensures Housed(t', r)
    {
      assert Housed(t, r);
      StillHoused(t, t', r);
    }
    forall x
      ensures Handed(t', x) <==> Handed(t, x) || (x == t[p].at && !InPage(t[p].bucket))
    {
      RemovedHome(t, p, x);
      if x == t[p].at && InPage(t[p].bucket) {
        assert !IsLive(t, x) by { PageOfAddr(p); }
      }
    }
  }

  lemma LiveAfterRemove(t: Table, p: nat)
    requires p in t && t[p].live == {}
    ensures forall x: nat {:trigger IsLive(t - {p}, x)} {:trigger IsLive(t, x)} :: IsLive(t - {p}, x) <==> IsLive(t, x)
  {
    hide PageOf, Aligned, ChunkAt;
  }

  lemma RemovedHome(t: Table, p: nat, x: nat)
    requires Placed(t) && p in t
    ensures var t' := t - {p};
            (forall r {:trigger IsHome(t', r, x)} :: !IsHome(t', r, x)) <==> x == t[p].at || (forall r {:trigger IsHome(t, r, x)} :: !IsHome(t, r, x))
  {
    hide Housed;
    var t' := t - {p};
    if r :| IsHome(t, r, x) {
      assert r == p || IsHome(t', r, x);
    }
    if r :| IsHome(t', r, x) {
      assert IsHome(t, r, x) && t[r].at == x;
    }
  }

  /** Chunks that are handed out do not overlap, and none overlaps a `struct pginfo` at the
      start of its page. */
  lemma ChunksApart(t: Table, a: nat, x: nat)
    requires Placed(t) && IsLive(t, a) && IsLive(t, x) && a < x
    ensures var b := t[PageOf(a)].bucket; a + Pow2(ShiftOf(b)) <= x
  {
    var p, b := PageOf(a), t[PageOf(a)].bucket;
    Known(t, p, 0);
    AddrBack(a, b);
    var q := ChunkAt(b, a % PAGE);
    ChunkOffset(b, q);
    if PageOf(x) == p {
      AddrBack(x, b);
      var r := ChunkAt(b, x % PAGE);
      if r <= q {
        Multiply(r, q, Pow2(ShiftOf(b)));
      } else {
        Below(q, r, Pow2(ShiftOf(b)));
      }
    }
  }

  lemma ChunkAboveHeader(t: Table, a: nat)
    requires Placed(t) && IsLive(t, a)
    ensures var b := t[PageOf(a)].bucket; InPage(b) ==> t[PageOf(a)].at + AdminSize(b) <= a
  {
    var p, b := PageOf(a), t[PageOf(a)].bucket;
    assert Housed(t, p);
    AddrBack(a, b);
    if InPage(b) {
      HeaderIsNoChunk(p, b, ChunkAt(b, a % PAGE));
    }
  }

  // ----- the objects

  /** The struct of page p says what the table says. */
  ghost predicate Mirror(o: PgInfo, p: nat, c: Chunked)
    reads o`free, o`total, o`bits
  {
    o.page == p && o.at == c.at && o.bucket == c.bucket && o.Good() && o.Live() == c.live
  }

  ghost predicate Mirrors(t: Table, infos: map<nat, PgInfo>, objs: set<PgInfo>)
    reads objs`free, objs`total, objs`bits
  {
    && (forall x {:trigger infos[x]} :: x in infos ==> infos[x] in objs && infos[x].page in t && t[infos[x].page].at == x)
    && (forall p {:trigger t[p].at} :: p in t ==> t[p].at in infos && Mirror(infos[t[p].at], p, t[p]))
  }

  ghost function InfoOf(t: Table, infos: map<nat, PgInfo>, p: nat): PgInfo? {
    if p in t && t[p].at in infos then infos[t[p].at] else null
  }

  /** The page of o belongs to bucket b, and has free chunks. */
  ghost predicate HasRoom(t: Table, infos: map<nat, PgInfo>, o: PgInfo, b: nat) {
    InfoOf(t, infos, o.page) == o && t[o.page].bucket == b && t[o.page].live != ChunkPage.Chunks(b)
  }

  /** A page is on the list of its bucket exactly if it has free chunks. */
  ghost predicate Listed(t: Table, infos: map<nat, PgInfo>, lists: seq<seq<PgInfo>>, objs: set<PgInfo>) {
    && |lists| == SHIFT
    && (forall b, o {:trigger o in lists[b]} {:trigger HasRoom(t, infos, o, b)} :: 0 <= b < SHIFT && o in objs ==> (o in lists[b] <==> HasRoom(t, infos, o, b)))
  }

  ghost predicate Queued(buckets: seq<PgInfo?>, lists: seq<seq<PgInfo>>, objs: set<PgInfo>)
    reads objs`next
  {
    && |buckets| == |lists| == SHIFT
    && (forall b {:trigger lists[b]} :: 0 <= b < SHIFT ==> (forall o {:trigger o in objs} :: o in lists[b] ==> o in objs) && OnBucket(buckets[b], lists[b]))
  }

  ghost function Homes(t: Table): map<nat, nat> {
    map p | p in t :: t[p].at
  }

  /** The lists after chunks of the page of bp, at the front of bucket b, were handed out. */
  ghost function Popped(lists: seq<seq<PgInfo>>, b: nat, full: bool): seq<seq<PgInfo>>
    requires b < |lists| && 0 < |lists[b]|
  {
    if full then lists[b := lists[b][1..]] else lists
  }

  lemma ListedTaken(t: Table, infos: map<nat, PgInfo>, lists: seq<seq<PgInfo>>, objs: set<PgInfo>, p: nat, b: nat, live: set<nat>)
    requires Listed(t, infos, lists, objs) && p in t && t[p].bucket == b < SHIFT && 0 < |lists[b]|
    requires InfoOf(t, infos, p) == lists[b][0] && lists[b][0].page == p && forall i, j :: 0 <= i < j < |lists[b]| ==> lists[b][i] != lists[b][j]
    requires t[p].live != ChunkPage.Chunks(b)
    ensures Listed(Marked(t, p, live), infos, Popped(lists, b, live == ChunkPage.Chunks(b)), objs)
  {
    hide ChunkPage.Chunks;
    var t', lists' := Marked(t, p, live), Popped(lists, b, live == ChunkPage.Chunks(b));
    var bp := lists[b][0];
    forall c, o | 0 <= c < SHIFT && o in objs
      ensures o in lists'[c] <==> HasRoom(t', infos, o, c)
    {
      assert lists[b] == [bp] + lists[b][1..];
      assert o in lists[c] <==> HasRoom(t, infos, o, c);
    }
  }

  lemma ListedAdded(t: Table, infos: map<nat, PgInfo>, lists: seq<seq<PgInfo>>, objs: set<PgInfo>, p: nat, at: nat, b: nat, bp: PgInfo)
    requires Listed(t, infos, lists, objs) && p !in t && b < SHIFT && bp.page == p && bp !in objs && ChunkPage.Chunks(b) != {}
    requires (forall r {:trigger t[r].at} :: r in t ==> t[r].at != at) && forall c {:trigger lists[c]} :: 0 <= c < SHIFT ==> bp !in lists[c]
    ensures Listed(Added(t, p, at, b), infos[at := bp], lists[b := [bp] + lists[b]], objs + {bp})
  {
    hide ChunkPage.Chunks;
    var t', infos', lists' := Added(t, p, at, b), infos[at := bp], lists[b := [bp] + lists[b]];
    forall c, o | 0 <= c < SHIFT && o in objs + {bp}
      ensures o in lists'[c] <==> HasRoom(t', infos', o, c)
    {
      if o != bp {
        assert o in lists[c] <==> HasRoom(t, infos, o, c);
      }
    }
  }

  lemma MirrorsAdded(t: Table, infos: map<nat, PgInfo>, objs: set<PgInfo>, p: nat, at: nat, b: nat, bp: PgInfo)
    requires Mirrors(t, infos, objs) && p !in t && bp.page == p && bp.at == at && bp.bucket == b && bp.Good() && bp.Live() == {}
    requires forall r {:trigger t[r].at} :: r in t ==> t[r].at != at
    ensures Mirrors(Added(t, p, at, b), infos[at := bp], objs + {bp})
  {
    hide PgInfo.Good, PgInfo.Live;
    var t', infos' := Added(t, p, at, b), infos[at := bp];
    forall r {:trigger t'[r].at} | r in t'
      ensures t'[r].at in infos' && Mirror(infos'[t'[r].at], r, t'[r])
    {
      assert r != p ==> t[r].at in infos && Mirror(infos[t[r].at], r, t[r]);
    }
  }

  lemma NoPages()
    ensures Infos(map[]) == Homes(map[])
  {
  }

  lemma SomeChunk(b: nat)
    requires IsBucket(b)
    ensures ChunkPage.Chunks(b) != {}
  {
    hide Positions, Stolen;
    BucketTable(b);
    assert Stolen(b) in ChunkPage.Chunks(b);
  }

  /** No page is on bucket b's list and on another. */
  ghost predicate Separate(lists: seq<seq<PgInfo>>, b: nat) {
    b < |lists| && forall c {:trigger lists[c]} :: 0 <= c < |lists| && c != b ==> forall o {:trigger o in lists[c]} :: o in lists[c] ==> o !in lists[b]
  }

  lemma OthersIn(lists: seq<seq<PgInfo>>, b: nat)
    requires Separate(lists, b)
    ensures forall c, k {:trigger lists[c][k]} :: 0 <= c < |lists| && c != b && 0 <= k < |lists[c]| ==> lists[c][k] !in lists[b]
  {
    forall c, k {:trigger lists[c][k]} | 0 <= c < |lists| && c != b && 0 <= k < |lists[c]|
      ensures lists[c][k] !in lists[b]
    {
      assert lists[c][k] in lists[c];
    }
  }

  lemma RejoinedSelf(lists: seq<seq<PgInfo>>, objs: set<PgInfo>, b: nat, bp: PgInfo)
    requires |lists| == SHIFT && b < SHIFT
    ensures Rejoined(lists, lists, objs, b, bp, false)
  {
  }

  lemma NotFull(b: nat, live: set<nat>, i: nat)
    requires i in ChunkPage.Chunks(b)
    ensures live - {i} != ChunkPage.Chunks(b)
  {
  }

  lemma ListsSeparate(t: Table, infos: map<nat, PgInfo>, lists: seq<seq<PgInfo>>, buckets: seq<PgInfo?>, objs: set<PgInfo>, b: nat)
    requires Listed(t, infos, lists, objs) && Queued(buckets, lists, objs) && b < SHIFT
    ensures Separate(lists, b)
  {
    hide ChunkPage.Chunks, OnBucket;
    forall c, o {:trigger o in lists[c]} | 0 <= c < SHIFT && c != b && o in lists[c]
      ensures o !in lists[b]
    {
      assert o in objs && HasRoom(t, infos, o, c);
      assert o in lists[b] <==> HasRoom(t, infos, o, b);
    }
  }

  /** The lists after a chunk of the page of bp was given back: bp joins its list, at some
      place, if the page was full. */
  ghost predicate Rejoined(lists: seq<seq<PgInfo>>, lists': seq<seq<PgInfo>>, objs: set<PgInfo>, b: nat, bp: PgInfo, full: bool) {
    && |lists| == |lists'| == SHIFT && b < SHIFT
    && (forall c {:trigger lists'[c]} :: 0 <= c < SHIFT && c != b ==> lists'[c] == lists[c])
    && (forall o {:trigger o in lists'[b]} :: o in objs ==> (o in lists'[b] <==> o in lists[b] || (full && o == bp)))
  }

  lemma ListedGiven(t: Table, infos: map<nat, PgInfo>, lists: seq<seq<PgInfo>>, lists': seq<seq<PgInfo>>, objs: set<PgInfo>, p: nat, b: nat, bp: PgInfo, live: set<nat>)
    requires Listed(t, infos, lists, objs) && p in t && t[p].bucket == b < SHIFT && InfoOf(t, infos, p) == bp && bp.page == p && bp in objs
    requires Rejoined(lists, lists', objs, b, bp, t[p].live == ChunkPage.Chunks(b)) && live != ChunkPage.Chunks(b)
    ensures Listed(Marked(t, p, live), infos, lists', objs)
  {
    hide ChunkPage.Chunks;
    var t' := Marked(t, p, live);
    forall c, o | 0 <= c < SHIFT && o in objs
      ensures o in lists'[c] <==> HasRoom(t', infos, o, c)
    {
      assert o in lists[c] <==> HasRoom(t, infos, o, c);
    }
  }

  lemma ListedRemoved(t: Table, infos: map<nat, PgInfo>, lists: seq<seq<PgInfo>>, objs: set<PgInfo>, p: nat, b: nat, k: nat)
    requires Listed(t, infos, lists, objs) && p in t && t[p].bucket == b < SHIFT && k < |lists[b]| && InfoOf(t, infos, p) == lists[b][k]
    requires lists[b][k].page == p && (forall i, j :: 0 <= i < j < |lists[b]| ==> lists[b][i] != lists[b][j])
    requires forall q {:trigger t[q].at} :: q in t && q != p ==> t[q].at != t[p].at
    ensures Listed(t - {p}, infos - {t[p].at}, lists[b := lists[b][..k] + lists[b][k + 1..]], objs)
  {
    hide ChunkPage.Chunks;
    var bp := lists[b][k];
    var t', infos', lists' := t - {p}, infos - {t[p].at}, lists[b := lists[b][..k] + lists[b][k + 1..]];
    assert lists[b] == lists[b][..k] + [bp] + lists[b][k + 1..];
    forall c, o | 0 <= c < SHIFT && o in objs
      ensures o in lists'[c] <==> HasRoom(t', infos', o, c)
    {
      assert o in lists[c] <==> HasRoom(t, infos, o, c);
    }
  }

  lemma MirrorsRemoved(t: Table, infos: map<nat, PgInfo>, objs: set<PgInfo>, p: nat)
    requires Mirrors(t, infos, objs) && p in t
    ensures Mirrors(t - {p}, infos - {t[p].at}, objs)
    ensures forall q {:trigger t[q].at} :: q in t && q != p ==> t[q].at != t[p].at
  {
    hide PgInfo.Good, PgInfo.Live;
    var t', infos' := t - {p}, infos - {t[p].at};
    forall q {:trigger t[q].at} | q in t && q != p
      ensures t[q].at != t[p].at
    {
      assert infos[t[q].at].page == q && infos[t[p].at].page == p;
    }
    forall r {:trigger t'[r].at} | r in t'
      ensures t'[r].at in infos' && Mirror(infos'[t'[r].at], r, t'[r])
    {
      assert t[r].at in infos && Mirror(infos[t[r].at], r, t[r]);
    }
  }

  datatype FreeOutcome = ChunkFreed | PagesFreed | Refused

  /** How deep the release of the page of `a` can nest. */
  function RankOf(t: Table, a: nat): nat {
    if PageOf(a) in t then Rank(t[PageOf(a)].bucket) + 1 else 0
  }

  lemma LiveInTable(t: Table, a: nat)
    ensures IsLive(t, a) || Handed(t, a) ==> PageOf(a) in t
  {
  }

  /** Which chunk an address of a page of chunks is the start of. */
  lemma AddrIsChunk(t: Table, a: nat)
    requires Placed(t) && PageOf(a) in t
    ensures var p := PageOf(a); var b := t[p].bucket;
            Aligned(b, a % PAGE) ==> ChunkAddr(p, b, ChunkAt(b, a % PAGE)) == a
  {
    Known(t, PageOf(a), 0);
    if Aligned(t[PageOf(a)].bucket, a % PAGE) {
      AddrBack(a, t[PageOf(a)].bucket);
    }
  }

  lemma HomesRemoved(tags: map<nat, Tag>, t: Table, p: nat)
    requires Infos(tags) == Homes(t) && p in t
    ensures Infos(tags[p := First]) == Homes(t - {p})
  {
    var m := Infos(tags);
    assert Infos(tags[p := First]) == m - {p};
    assert Homes(t - {p}) == Homes(t) - {p};
  }

  /** From t to t' the page p, none of whose chunks was handed out, stopped being a page of
      chunks: only the chunk that its `struct pginfo` may be in has become a caller's. */
  ghost predicate Vacant(t: Table, t': Table, p: nat)
    requires SHIFT <= p && p in t
  {
    var at := t[p].at;
    if PageAddr(p) == at then forall x :: Handed(t', x) <==> Handed(t, x)
    else PageOf(at) in t' && IsLive(t', at) && !Handed(t, at) && RankOf(t', at) < Rank(t[p].bucket) + 1 &&
         Aligned(t'[PageOf(at)].bucket, at % PAGE) && ChunkAt(t'[PageOf(at)].bucket, at % PAGE) in ChunkPage.Chunks(t'[PageOf(at)].bucket) &&
         forall x :: Handed(t', x) <==> Handed(t, x) || x == at
  }

  lemma Vacated(t: Table, p: nat)
    requires Placed(t) && p in t && t[p].live == {} && SHIFT <= p
    ensures Vacant(t, t - {p}, p)
  {
    hide Rank, InPage, PageOf, Aligned, ChunkAt, ChunkPage.Chunks, IsBucket, PageAddr;
    assert Housed(t, p);
    PageRemoved(t, p);
    PageOfAddr(p);
    LiveAfterRemove(t, p);
    assert IsHome(t, p, t[p].at);
    if !InPage(t[p].bucket) {
      Known(t, PageOf(t[p].at), 0);
    }
  }

  lemma BucketOfSlot(slot: nat, b: nat)
    requires IsBucket(b) && slot == if SizeOf(b) != 0 then ShiftOf(b) else 0
    ensures slot == b
  {
  }

  lemma NoRepeats(head: PgInfo?, list: seq<PgInfo>)
    requires OnBucket(head, list)
    ensures forall i, j :: 0 <= i < j < |list| ==> list[i] != list[j]
  {
  }

  /** What the system decides during a call: where new pages are mapped, the random number,
      and what is in memory that was just allocated. */
  datatype Env = Env(mmapAt: nat, random: nat, junk: Words)

  /** The addresses that the system will choose are not in use, and apart from each other. */
  ghost predicate EnvFits(env: seq<Env>, owned: set<nat>, m: nat) {
    && (forall i {:trigger env[i].junk} :: 0 <= i < |env| ==> IsBitmap(env[i].junk, WORD))
    && (forall i {:trigger env[i].mmapAt} :: 0 <= i < |env| ==> SHIFT <= env[i].mmapAt && Range(env[i].mmapAt, env[i].mmapAt + m) !! owned)
    && (forall i, j {:trigger env[i].mmapAt, env[j].mmapAt} :: 0 <= i < j < |env| ==> Range(env[i].mmapAt, env[i].mmapAt + m) !! Range(env[j].mmapAt, env[j].mmapAt + m))
  }

  lemma FirstEnv(env: seq<Env>, owned: set<nat>, m: nat)
    requires EnvFits(env, owned, m) && 0 < |env|
    ensures SHIFT <= env[0].mmapAt && Range(env[0].mmapAt, env[0].mmapAt + m) !! owned
  {
    hide Range;
  }

  /** Pages for a request: `pageround(size) >> malloc_pageshift`, and 1 for a page of chunks. */
  function PagesFor(size: nat): (n: nat)
    ensures 0 < n
  {
    if size <= MAXSIZE then 1 else (size + PAGE - 1) / PAGE
  }

  lemma EnvLater(env: seq<Env>, owned: set<nat>, free: set<nat>, m: nat, p: nat)
    requires EnvFits(env, owned, m) && 0 < |env| && free <= owned && Chosen(free, m, env[0].mmapAt, p)
    ensures EnvFits(env[1..], owned + Range(p, p + m), m)
  {
    hide Range;
    if PageAllocator.Fits(free, p, m) {
      assert owned + Range(p, p + m) == owned;
    }
  }

  lemma AddedBlock(live: map<nat, nat>, keys: set<nat>, p: nat, n: nat)
    requires keys <= live.Keys && p !in live
    ensures live[p := n] - keys == (live - keys)[p := n] && p !in keys
  {
  }

  lemma HomesAdded(tags: map<nat, Tag>, t: Table, p: nat, at: nat, b: nat)
    requires Infos(tags) == Homes(t)
    ensures Infos(tags[p := Tag.Info(at)]) == Homes(Added(t, p, at, b))
  {
    var m := Infos(tags);
    assert Infos(tags[p := Tag.Info(at)]) == m[p := at];
    assert Homes(Added(t, p, at, b)) == Homes(t)[p := at];
  }

  /** No page of chunks, but p at most, is kept without any of its chunks in use. */
  ghost predicate BusyBut(t: Table, p: nat) {
    forall q {:trigger t[q].live} :: q in t && q != p ==> t[q].live != {}
  }

  ghost predicate Busy(t: Table) {
    forall q {:trigger t[q].live} :: q in t ==> t[q].live != {}
  }

  lemma BusyAgain(t: Table, p: nat, live: set<nat>)
    requires BusyBut(t, p) && p in t && live != {}
    ensures Busy(Marked(t, p, live))
  {
  }

  lemma BusyAdded(t: Table, p: nat, at: nat, b: nat)
    ensures Busy(t) ==> BusyBut(Added(t, p, at, b), p)
  {
  }

  lemma BusyMarked(t: Table, p: nat, live: set<nat>)
    requires p in t
    ensures Busy(t) ==> BusyBut(Marked(t, p, live), p) && BusyBut(t, p)
  {
  }

  lemma BusyUnless(t: Table, p: nat)
    ensures p in t && t[p].live != {} && BusyBut(t, p) ==> Busy(t)
  {
  }

  lemma BusyAny(t: Table)
    ensures Busy(t) ==> forall p: nat :: BusyBut(t, p)
  {
  }

  lemma BusyRemoved(t: Table, p: nat)
    ensures BusyBut(t, p) ==> Busy(t - {p})
  {
  }

  /** Every page of chunks of t is one of t', of the same bucket. */
  ghost predicate Extends(t: Table, t': Table) {
    forall p {:trigger t[p]} {:trigger t'[p]} :: p in t ==> p in t' && t'[p].bucket == t[p].bucket
  }

  lemma ExtendsOn(t: Table, m: Table, t': Table)
    requires Extends(t, m) && Extends(m, t')
    ensures Extends(t, t')
  {
  }

  lemma ExtendsStep(t: Table, p: nat, c: Chunked)
    ensures Extends(t, t) && Extends(t - {p}, t)
    ensures (p in t ==> t[p].bucket == c.bucket) ==> Extends(t, t[p := c])
    ensures p in t && t[p].bucket == c.bucket ==> Extends(t[p := c], t)
  {
  }

  /** From t to t' the chunk at `a` was handed out, and nothing else for a caller. */
  ghost predicate Serves(t: Table, t': Table, a: nat) {
    && Extends(t, t')
    && IsLive(t', a) && !IsLive(t, a) && !Handed(t, a) && PageOf(a) in t'
    && (forall x :: IsLive(t, x) ==> IsLive(t', x))
    && (forall x :: Handed(t', x) <==> Handed(t, x) || x == a)
  }

  /** From t to t' nothing changed for a caller. */
  ghost predicate Keeps(t: Table, t': Table) {
    && Extends(t, t')
    && (forall x :: IsLive(t, x) ==> IsLive(t', x))
    && (forall x :: Handed(t', x) <==> Handed(t, x))
  }

  /** From t to t' a page of bucket b was added, whose `struct pginfo` is at `at`. */
  ghost predicate Houses(t: Table, t': Table, at: nat, b: nat) {
    && Extends(t, t')
    && (forall x :: IsLive(t, x) ==> IsLive(t', x)) && (InPage(b) ==> !Handed(t, at))
    && (forall x :: Handed(t', x) <==> Handed(t, x) && x != at)
  }

  lemma KeepsServes(t: Table, m: Table, t': Table, a: nat)
    requires Keeps(t, m) && Serves(m, t', a)
    ensures Serves(t, t', a)
  {
    hide IsLive, Handed, Extends;
    ExtendsOn(t, m, t');
  }

  lemma ServesHouses(t: Table, m: Table, t': Table, at: nat, b: nat)
    requires Houses(m, t', at, b) && if InPage(b) then m == t else Serves(t, m, at)
    ensures Keeps(t, t')
  {
    hide IsLive, Handed, InPage, Extends;
    if m != t {
      ExtendsOn(t, m, t');
    }
  }

  lemma SameKeys(t: Table, t': Table)
    requires Homes(t) == Homes(t')
    ensures t.Keys == t'.Keys
  {
    assert t.Keys == Homes(t).Keys && t'.Keys == Homes(t').Keys;
  }

  lemma HandedNow(t: Table, t': Table, a: nat)
    requires Serves(t, t', a)
    ensures Handed(t', a) && !Handed(t, a) && PageOf(a) in t'
  {
    hide IsLive, Handed;
  }

  lemma BitmapOf(env: seq<Env>)
    requires 0 < |env| && exists owned: set<nat>, m: nat :: EnvFits(env, owned, m)
    ensures IsBitmap(env[0].junk, WORD)
  {
    hide Range;
    assert env[0].junk == env[0].junk;
  }

  lemma PutAside(blocks: map<nat, nat>, p: nat, n: nat)
    requires p !in blocks
    ensures blocks[p := n] - {p} == blocks
  {
  }

  lemma KeepsSelf(t: Table)
    ensures Keeps(t, t)
  {
  }

  /** From t to t' the chunk at `a` was taken back, and nothing else changed for a caller. */
  ghost predicate Gives(t: Table, t': Table, a: nat) {
    Extends(t', t) && forall x :: Handed(t', x) <==> Handed(t, x) && x != a
  }

  /** The page of a belongs to bucket b. */
  ghost predicate OfBucket(t: Table, a: nat, b: nat) {
    PageOf(a) in t && t[PageOf(a)].bucket == b
  }

  // ----- what callers hold

  /** Callers hold `a`: a chunk, or a block of pages. */
  ghost predicate Out(t: Table, blocks: map<nat, nat>, a: nat) {
    Handed(t, a) || (PageOf(a) in blocks && a % PAGE == 0)
  }

  /** The size of the chunk or block at `a`. */
  ghost function Bytes(t: Table, blocks: map<nat, nat>, a: nat): nat {
    var p := PageOf(a);
    if p in t then Pow2(ShiftOf(t[p].bucket)) else if p in blocks then blocks[p] * PAGE else 0
  }

  /** Callers hold exactly the addresses in `held`, with room for the sizes they asked for. */
  ghost predicate Records(t: Table, blocks: map<nat, nat>, held: map<nat, nat>) {
    && (forall a {:trigger a in held} {:trigger Out(t, blocks, a)} :: a in held <==> Out(t, blocks, a))
    && (forall a {:trigger held[a]} :: a in held ==> held[a] <= Bytes(t, blocks, a))
  }

  lemma RecordsNothing()
    ensures Records(map[], map[], map[])
  {
  }

  lemma RecordsChunk(t: Table, t': Table, blocks: map<nat, nat>, held: map<nat, nat>, a: nat, size: nat)
    requires Records(t, blocks, held) && Serves(t, t', a) && t'.Keys !! blocks.Keys
    requires PageOf(a) in t' && size <= Pow2(ShiftOf(t'[PageOf(a)].bucket))
    ensures a !in held && Records(t', blocks, held[a := size])
  {
    hide IsLive, Handed, Pow2, ShiftOf, PageOf;
    var held' := held[a := size];
    assert !Out(t, blocks, a);
    forall x | x in held'
      ensures held'[x] <= Bytes(t', blocks, x)
    {
      if x != a {
        LiveInTable(t, x);
        assert Out(t, blocks, x);
      }
    }
    forall x
      ensures x in held' <==> Out(t', blocks, x)
    {
      assert x in held <==> Out(t, blocks, x);
    }
  }

  lemma RecordsBlock(t: Table, blocks: map<nat, nat>, held: map<nat, nat>, a: nat, n: nat, size: nat)
    requires Records(t, blocks, held) && PageOf(a) !in t && PageOf(a) !in blocks && a % PAGE == 0 && size <= n * PAGE
    ensures a !in held && Records(t, blocks[PageOf(a) := n], held[a := size])
  {
    hide IsLive, Handed, Pow2, ShiftOf;
    LiveInTable(t, a);
    assert !Out(t, blocks, a);
    var held', blocks' := held[a := size], blocks[PageOf(a) := n];
    forall x
      ensures x in held' <==> Out(t, blocks', x)
      ensures x in held' ==> held'[x] <= Bytes(t, blocks', x)
    {
      assert x in held <==> Out(t, blocks, x);
      LiveInTable(t, x);
    }
  }

  lemma RecordsLess(t: Table, t': Table, blocks: map<nat, nat>, held: map<nat, nat>, a: nat)
    requires Records(t, blocks, held) && Gives(t, t', a) && t.Keys !! blocks.Keys && IsLive(t, a)
    ensures Records(t', blocks, held - {a})
  {
    hide IsLive, Handed, Pow2, ShiftOf, PageOf;
    LiveInTable(t, a);
    forall x
      ensures x in held - {a} <==> Out(t', blocks, x)
      ensures x in held - {a} ==> held[x] <= Bytes(t', blocks, x)
    {
      assert x in held <==> Out(t, blocks, x);
      LiveInTable(t', x);
    }
  }

  lemma RecordsFewer(t: Table, blocks: map<nat, nat>, held: map<nat, nat>, a: nat)
    requires Records(t, blocks, held) && PageOf(a) !in t && PageOf(a) in blocks && a % PAGE == 0
    ensures Records(t, blocks - {PageOf(a)}, held - {a})
  {
    hide IsLive, Handed, Pow2, ShiftOf;
    var blocks' := blocks - {PageOf(a)};
    forall x
      ensures x in held - {a} <==> Out(t, blocks', x)
      ensures x in held - {a} ==> held[x] <= Bytes(t, blocks', x)
    {
      assert x in held <==> Out(t, blocks, x);
      LiveInTable(t, x);
    }
  }

  /** `SIZE_MAX` */
  const SIZE_MAX: nat := 0xFFFF_FFFF_FFFF_FFFF

  /** How deep a request of this size can nest. */
  function RankFor(size: nat): nat {
    if size == 0 then 2 else if size > 64 then 1 else 0
  }

  lemma RankFits(size: nat, b: nat)
    requires IsBucket(b) && ChunkPage.Fits(size, b)
    ensures Rank(b) <= RankFor(size)
  {
    hide InPage;
    BucketTable(b);
    if 0 < size <= 64 && 7 <= b {
      Pow2Grows(6, b - 1);
    }
  }

  lemma NestedRank(b: nat)
    requires IsBucket(b) && !InPage(b)
    ensures RankFor(AdminSize(b)) < Rank(b) && AdminSize(b) <= MAXSIZE
  {
    hide InPage, Stolen, Positions, WordsOf;
    BucketTable(b);
  }

  class Heap {
    const pages: Pages
    var buckets: seq<PgInfo?>        // the first slots of page_dir
    var infos: map<nat, PgInfo>      // the struct pginfo at each address
    ghost var table: Table
    ghost var lists: seq<seq<PgInfo>>
    ghost var objs: set<PgInfo>

    ghost predicate Own()
      reads this, objs, pages.dir`abs
    {
      Parts() && Infos(pages.dir.abs.tags) == Homes(table)
    }

    ghost predicate Parts()
      reads this, objs
    {
      Placed(table) && Mirrors(table, infos, objs) && Listed(table, infos, lists, objs) && Queued(buckets, lists, objs)
    }

    /** Takes a chunk of the page of `bp`, and the page off the front of its list if that was
        the last one. */
    method TakeBit(p: nat, bp: PgInfo, random: nat) returns (q: nat)
      requires Mirrors(table, infos, objs) && Placed(table) && InfoOf(table, infos, p) == bp && table[p].live != ChunkPage.Chunks(bp.bucket)
      modifies bp`free, bp`bits
      ensures p in table && q in ChunkPage.Chunks(bp.bucket) - table[p].live && bp.bucket == table[p].bucket
      ensures Mirrors(Marked(table, p, table[p].live + {q}), infos, objs)
      ensures bp.free == 0 <==> table[p].live + {q} == ChunkPage.Chunks(bp.bucket)
    {
      hide ChunkPage.Chunks, Placed, PgInfo.Good, PgInfo.Live;
      bp.FullOrEmpty();
      q := bp.Take(pages.g != 0, random);
      bp.FullOrEmpty();
    }

    constructor (g: nat, cache: nat)
      requires g <= 1
      ensures Valid() && table == map[] && PageBlocks() == map[] && fresh(pages) && pages.g == g && pages.cache == cache
    {
      hide Directory.Valid, List.Valid, Pages.Agree, Anchored, Total, Infos;
      NoPages();
      pages := new Pages(g, cache);
      buckets, infos := seq(SHIFT, _ => null), map[];
      table, lists, objs := map[], seq(SHIFT, _ => []), {};
      new;
      assert forall b {:trigger lists[b]} :: 0 <= b < SHIFT ==> OnBucket(buckets[b], lists[b]);
    }

    ghost predicate Valid()
      reads this, objs, pages, pages.dir, pages.dir.abs.dirs, pages.list, pages.list.head, pages.list.abs.nodes, pages.list.Nodes()
    {
      pages.Valid() && Own()
    }

    /** Bucket b is not empty: what is known about its first page. */
    lemma Front(b: nat)
      requires Parts() && b < SHIFT && buckets[b] != null
      ensures |lists| == |buckets| == SHIFT && 0 < |lists[b]| && lists[b][0] == buckets[b] && OnBucket(buckets[b], lists[b])
      ensures buckets[b] in objs && HasRoom(table, infos, buckets[b], b) && SHIFT <= buckets[b].page && buckets[b].bucket == b
      ensures buckets[b].shift == ShiftOf(b) && forall i, j :: 0 <= i < j < |lists[b]| ==> lists[b][i] != lists[b][j]
      ensures forall c {:trigger lists[c]} :: 0 <= c < SHIFT && c != b ==> buckets[b] !in lists[c]
    {
      hide ChunkPage.Chunks, PgInfo.Live, Placed;
      assert lists[b][0] in lists[b];
      var bp := buckets[b];
      assert bp in objs && HasRoom(table, infos, bp, b);
      assert Mirror(bp, bp.page, table[bp.page]);
      Known(table, bp.page, 0);
      forall c {:trigger lists[c]} | 0 <= c < SHIFT && c != b
        ensures bp !in lists[c]
      {
        assert bp in lists[c] <==> HasRoom(table, infos, bp, c);
      }
    }

    /** "If there are no more free, remove from free-list". */
    method DropFull(b: nat, bp: PgInfo, full: bool)
      requires Queued(buckets, lists, objs) && b < SHIFT && bp in lists[b] && buckets[b] == bp
      requires forall c {:trigger lists[c]} :: 0 <= c < SHIFT && c != b ==> bp !in lists[c]
      modifies this`buckets, this`lists, bp`next
      ensures 0 < |old(lists)[b]| && lists == Popped(old(lists), b, full) && Queued(buckets, lists, objs)
    {
      if full {
        ghost var list := lists[b];
        var head := PopInfo(bp, list);
        buckets := buckets[b := head];
        lists := lists[b := list[1..]];
      }
    }

    /** The second half of `malloc_bytes`, when bucket b has a page with free chunks. */
    method TakeChunk(b: nat, random: nat) returns (a: nat)
      requires Parts() && IsBucket(b) && buckets[b] != null
      modifies this`buckets, this`lists, this`table, objs
      ensures Parts() && Serves(old(table), table, a) && OfBucket(table, a, b) && Homes(table) == Homes(old(table))
      ensures BusyBut(old(table), old(buckets[b].page)) ==> Busy(table)
      ensures table.Keys == old(table.Keys)
    {
      hide Placed, Mirrors, Listed, Queued, ChunkPage.Chunks, IsLive, OnBucket, Aligned, ChunkAt, Busy, BusyBut, Extends;
      Front(b);
      var bp := buckets[b];
      var p := bp.page;
      var q := TakeBit(p, bp, random);
      ghost var live := table[p].live + {q};
      ListedTaken(table, infos, lists, objs, p, b, live);
      Taken(table, p, q);
      ExtendsStep(table, p, table[p].(live := live));
      DropFull(b, bp, bp.free == 0);
      if BusyBut(table, p) {
        BusyAgain(table, p, live);
      }
      table := Marked(table, p, live);
      a := PageAddr(p) + q * Pow2(bp.shift);
    }

    /** The end of `malloc_make_chunks`: the new page becomes the first of its bucket. */
    method LinkPage(b: nat, p: nat, at: nat, bp: PgInfo)
      requires Parts() && IsBucket(b) && p !in table && SHIFT <= p && bp !in objs
      requires bp.Good() && bp.bucket == b && bp.page == p && bp.at == at && bp.Live() == {}
      requires if InPage(b) then at == PageAddr(p) else Handed(table, at) && Rank(table[PageOf(at)].bucket) < Rank(b)
      modifies this`buckets, this`infos, this`table, this`lists, this`objs, bp`next
      ensures Parts() && table == Added(old(table), p, at, b) && objs == old(objs) + {bp} && buckets[b] == bp
      ensures Houses(old(table), table, at, b)
    {
      hide Placed, IsLive, Rank, InPage, ChunkPage.Chunks, PgInfo.Good, PgInfo.Live, PageAddr, PageOf, Mirrors, Listed, Queued, Extends;
      ExtendsStep(table, p, Chunked(at, b, {}));
      SomeChunk(b);
      FreshHome(table, p, at, b);
      NotQueued(bp);
      ListedAdded(table, infos, lists, objs, p, at, b, bp);
      MirrorsAdded(table, infos, objs, p, at, b, bp);
      PageAdded(table, p, at, b);
      PushOn(b, bp);
      infos := infos[at := bp];
      table := Added(table, p, at, b);
      objs := objs + {bp};
    }

    lemma NotQueued(bp: PgInfo)
      requires Queued(buckets, lists, objs) && bp !in objs
      ensures |lists| == |buckets| == SHIFT && forall c {:trigger lists[c]} :: 0 <= c < SHIFT ==> bp !in lists[c]
    {
    }

    /** The page goes to the front of its bucket's list. */
    method PushOn(b: nat, bp: PgInfo)
      requires Queued(buckets, lists, objs) && b < SHIFT && bp !in objs
      modifies this`buckets, this`lists, bp`next
      ensures Queued(buckets, lists, objs + {bp}) && lists == old(lists)[b := [bp] + old(lists)[b]] && buckets[b] == bp
    {
      ghost var list := lists[b];
      PushInfo(buckets[b], bp, list);
      buckets := buckets[b := bp];
      lists := lists[b := [bp] + list];
    }

    /** The blocks of pages that are not pages of chunks. */
    ghost function PageBlocks(): map<nat, nat>
      reads this`table, pages`blocks
    {
      pages.blocks.live - table.Keys
    }

    /** Nothing that could be reached before is gone, and what can be reached now in
        addition is new. */
    twostate predicate Grown()
      reads this`objs, pages.dir`head, pages.dir`abs, pages.list`abs
    {
      && old(objs) <= objs && fresh(objs - old(objs)) && pages.dir.Grown()
      && forall x {:trigger x in pages.list.Nodes()} :: x in pages.list.Nodes() ==> x in old(pages.list.Nodes()) || fresh(x)
    }

    /** A fresh page for `malloc_make_chunks`. */
    method NewPage(env: seq<Env>) returns (p: nat)
      requires Valid() && 0 < |env| && EnvFits(env, pages.dir.abs.owned, 1 + pages.g)
      modifies pages`used, pages`guarded, pages`blocks, pages.dir, pages.dir.Nodes(), pages.list`abs, pages.list.Nodes()
      ensures Valid() && Grown() && EnvFits(env[1..], pages.dir.abs.owned, 1 + pages.g)
      ensures p !in table && SHIFT <= p && PageBlocks() == old(PageBlocks())[p := 1] && p !in old(PageBlocks())
    {
      hide Parts, Pages.Valid, Infos, Directory.Valid, EnvFits, Chosen, WithoutBlock, WithBlock, Range, List.Free, Homes;
      NextEnv(env);
      TablePages();
      ghost var live := pages.blocks.live;
      p := pages.MallocPages(1, env[0].mmapAt);
      EnvLater(env, old(pages.dir.abs.owned), old(pages.list.Free()), 1 + pages.g, p);
      AddedBlock(live, table.Keys, p, 1);
    }

    lemma NextEnv(env: seq<Env>)
      requires 0 < |env| && EnvFits(env, pages.dir.abs.owned, 1 + pages.g) && pages.Valid()
      ensures SHIFT <= env[0].mmapAt && Range(env[0].mmapAt, env[0].mmapAt + 1 + pages.g) !! pages.dir.abs.owned && IsBitmap(env[0].junk, WORD)
      ensures pages.g <= 1 && pages.list.Free() <= pages.dir.abs.owned
    {
      hide Range, Directory.Valid, List.Valid, WellOwned, TagsAgree, Counted;
      assert env[0].junk == env[0].junk;
    }

    /** The pages of chunks are blocks of one page. */
    lemma TablePages()
      requires Valid()
      ensures table.Keys <= pages.blocks.live.Keys && forall p {:trigger p in table} :: p in table ==> SHIFT <= p && pages.blocks.live[p] == 1
    {
      hide Parts, Pages.Valid;
      forall p | p in table
        ensures p in pages.blocks.live && SHIFT <= p && pages.blocks.live[p] == 1
      {
        assert p in Homes(table);
        pages.InfoPage(p);
      }
    }

    /** The rest of `malloc_make_chunks`, when the page and the place for its
        `struct pginfo` are there. */
    method Install(b: nat, p: nat, at: nat, junk: Words)
      requires Valid() && IsBucket(b) && p in PageBlocks() && PageBlocks()[p] == 1 && SHIFT <= p && IsBitmap(junk, WORD)
      requires if InPage(b) then at == PageAddr(p) else Handed(table, at) && Rank(table[PageOf(at)].bucket) < Rank(b)
      modifies this`buckets, this`infos, this`table, this`lists, this`objs, pages.dir`lastDir, pages.dir`prevDir, pages.dir`abs, pages.dir.Nodes()`base
      ensures Valid() && old(objs) <= objs && fresh(objs - old(objs)) && table == Added(old(table), p, at, b)
      ensures buckets[b] != null && buckets[b].page == p && PageBlocks() == old(PageBlocks()) - {p} && pages.dir.Nodes() == old(pages.dir.Nodes())
      ensures Houses(old(table), table, at, b)
    {
      hide Houses, Added, Parts, IsLive, InPage, Rank, Infos, Homes, Handed, PgInfo.Live, PgInfo.Good, Positions, Stolen, WordsOf, ChunkPage.Count;
      hide Directory.Valid, List.Valid, Anchored, Pages.Agree, Total, PageBlocks;
      BucketTable(b);
      var bp := MakeInfo(b, p, at, junk[..WordsOf(b)]);
      Place(b, p, at, bp);
    }

    /** The directory and the bucket get to know the page. */
    method Place(b: nat, p: nat, at: nat, bp: PgInfo)
      requires Valid() && IsBucket(b) && p in PageBlocks() && PageBlocks()[p] == 1 && SHIFT <= p
      requires bp !in objs && bp.Good() && bp.bucket == b && bp.page == p && bp.at == at && bp.Live() == {}
      requires if InPage(b) then at == PageAddr(p) else Handed(table, at) && Rank(table[PageOf(at)].bucket) < Rank(b)
      modifies this`buckets, this`infos, this`table, this`lists, this`objs, bp`next
      modifies pages.dir`lastDir, pages.dir`prevDir, pages.dir`abs, pages.dir.Nodes()`base
      ensures Valid() && objs == old(objs) + {bp} && table == Added(old(table), p, at, b) && buckets[b] == bp
      ensures PageBlocks() == old(PageBlocks()) - {p} && pages.dir.Nodes() == old(pages.dir.Nodes())
      ensures Houses(old(table), table, at, b)
    {
      hide Parts, IsLive, InPage, Rank, Infos, Homes, Handed, Houses, PgInfo.Live, PgInfo.Good, Directory.Valid, List.Valid, Anchored, Pages.Agree, Total;
      HomesAdded(pages.dir.abs.tags, table, p, at, b);
      pages.Retag(p, Tag.Info(at));
      LinkPage(b, p, at, bp);
    }

    /** `malloc_make_chunks`: bucket b gets a page.  Only the allocator itself uses what is
        allocated for it. */
    method MakeChunks(b: nat, env: seq<Env>)
      requires Valid() && IsBucket(b) && Rank(b) < |env| && EnvFits(env, pages.dir.abs.owned, 1 + pages.g)
      modifies this, pages`used, pages`guarded, pages`blocks, pages.dir, pages.dir.Nodes(), pages.list`abs, pages.list.Nodes(), objs
      ensures Valid() && Grown() && buckets[b] != null
      ensures Keeps(old(table), table) && PageBlocks() == old(PageBlocks())
      ensures Busy(old(table)) ==> BusyBut(table, buckets[b].page)
      decreases Rank(b), 0, 1
    {
      hide Busy, BusyBut, Own, Pages.Valid, IsLive, InPage, Rank, Infos, EnvFits, Handed, PageBlocks, Serves, Keeps, Houses;
      BitmapOf(env);
      var p, at := Prepare(b, env);
      ghost var mid := table;
      BusyAdded(mid, p, at, b);
      Install(b, p, at, env[0].junk);
      ServesHouses(old(table), mid, table, at, b);
      PutAside(old(PageBlocks()), p, 1);
    }

    /** The page, and where its `struct pginfo` will be. */
    method Prepare(b: nat, env: seq<Env>) returns (p: nat, at: nat)
      requires Valid() && IsBucket(b) && Rank(b) < |env| && EnvFits(env, pages.dir.abs.owned, 1 + pages.g)
      modifies this, pages`used, pages`guarded, pages`blocks, pages.dir, pages.dir.Nodes(), pages.list`abs, pages.list.Nodes(), objs
      ensures Valid() && Grown() && SHIFT <= p && PageBlocks() == old(PageBlocks())[p := 1] && p !in old(PageBlocks())
      ensures Busy(old(table)) ==> Busy(table)
      ensures if InPage(b) then at == PageAddr(p) && table == old(table)
              else Serves(old(table), table, at) && Handed(table, at) && Rank(table[PageOf(at)].bucket) < Rank(b)
      decreases Rank(b), 0, 0
    {
      hide Busy, Own, Pages.Valid, IsLive, InPage, Rank, Infos, EnvFits, Handed, PageBlocks, Serves, PageAddr, PageOf, ChunkPage.Fits;
      p := NewPage(env);
      if InPage(b) {
        at := PageAddr(p);
      } else {
        NestedRank(b);
        at := MallocBytes(AdminSize(b), env[1..]);
        HandedNow(old(table), table, at);
      }
    }

    /** `malloc_bytes`: a chunk of the bucket for this size, that was not handed out. */
    method MallocBytes(size: nat, env: seq<Env>) returns (a: nat)
      requires Valid() && size <= MAXSIZE && RankFor(size) < |env| && EnvFits(env, pages.dir.abs.owned, 1 + pages.g)
      modifies this, pages`used, pages`guarded, pages`blocks, pages.dir, pages.dir.Nodes(), pages.list`abs, pages.list.Nodes(), objs
      ensures Valid() && Grown()
      ensures Serves(old(table), table, a) && PageBlocks() == old(PageBlocks())
      ensures ChunkPage.Fits(size, table[PageOf(a)].bucket) && Rank(table[PageOf(a)].bucket) <= RankFor(size)
      ensures Busy(old(table)) ==> Busy(table)
      decreases RankFor(size), 2
    {
      hide Busy, BusyBut, Own, Pages.Valid, IsLive, InPage, Rank, Infos, EnvFits, Handed, PageBlocks, Serves, Keeps, Houses, ChunkPage.Fits;
      var b := FindBucket(size);
      RankFits(size, b);
      FillBucket(b, env);
      ghost var mid := table;
      a := ServeFrom(b, env[0].random);
      KeepsServes(old(table), mid, table, a);
    }

    /** "If it's empty, make a page more of that size chunks". */
    method FillBucket(b: nat, env: seq<Env>)
      requires Valid() && IsBucket(b) && Rank(b) < |env| && EnvFits(env, pages.dir.abs.owned, 1 + pages.g)
      modifies this, pages`used, pages`guarded, pages`blocks, pages.dir, pages.dir.Nodes(), pages.list`abs, pages.list.Nodes(), objs
      ensures Valid() && Grown() && |buckets| == SHIFT && buckets[b] != null
      ensures Keeps(old(table), table) && PageBlocks() == old(PageBlocks())
      ensures Busy(old(table)) ==> BusyBut(table, buckets[b].page)
      decreases Rank(b), 1
    {
      hide Busy, BusyBut, Parts, Pages.Valid, Rank, EnvFits, PageBlocks, Keeps, Infos, Homes;
      HasBuckets();
      KeepsSelf(table);
      BusyAny(table);
      if buckets[b] == null {
        MakeChunks(b, env);
        HasBuckets();
      }
    }

    method ServeFrom(b: nat, random: nat) returns (a: nat)
      requires IsBucket(b) && |buckets| == SHIFT && buckets[b] != null && Valid()
      modifies this`buckets, this`lists, this`table, objs
      ensures Valid() && Serves(old(table), table, a) && OfBucket(table, a, b) && PageBlocks() == old(PageBlocks())
      ensures BusyBut(old(table), old(buckets[b].page)) ==> Busy(table)
    {
      hide Busy, BusyBut, Parts, Serves, Directory.Valid, List.Valid, Anchored, Pages.Agree, Total, Infos, Homes;
      a := TakeChunk(b, random);
      SameKeys(old(table), table);
    }

    lemma HasBuckets()
      requires Parts()
      ensures |buckets| == SHIFT
    {
      hide Placed, Mirrors, Listed, OnBucket;
    }

    // ----- free_bytes

    /** Marks chunk i of page p free, unless it is. */
    method PutBit(p: nat, info: PgInfo, i: nat) returns (was: bool)
      requires Mirrors(table, infos, objs) && Placed(table) && InfoOf(table, infos, p) == info && i in ChunkPage.Chunks(info.bucket)
      modifies info`free, info`bits
      ensures p in table && info.bucket == table[p].bucket && info.page == p && info in objs && was == (i in table[p].live)
      ensures IsBucket(info.bucket) && info.shift == ShiftOf(info.bucket) && info.size == SizeOf(info.bucket)
      ensures Mirrors(Marked(table, p, table[p].live - {i}), infos, objs)
      ensures was ==> (info.free == 1 <==> table[p].live == ChunkPage.Chunks(info.bucket))
      ensures was ==> (info.free == info.total <==> table[p].live - {i} == {}) && (info.free == 1 ==> info.free != info.total)
    {
      hide ChunkPage.Chunks, Placed, PgInfo.Good, PgInfo.Live;
      info.FullOrEmpty();
      IsChunk(info.bucket, i);
      hide Stolen, Positions;
      was := info.Put(i);
      info.FullOrEmpty();
    }

    /** Puts a page on the list of its bucket when it was full. */
    method Rejoin(b: nat, info: PgInfo)
      requires Queued(buckets, lists, objs) && b < SHIFT && info in objs && forall c {:trigger lists[c]} :: 0 <= c < SHIFT ==> info !in lists[c]
      requires Separate(lists, b)
      modifies this`buckets, this`lists, objs`next
      ensures Queued(buckets, lists, objs) && Rejoined(old(lists), lists, objs, b, info, true)
    {
      ghost var list := lists[b];
      OthersIn(lists, b);
      var head, k := InsertInfo(buckets[b], info, list);
      buckets := buckets[b := head];
      lists := lists[b := list[..k] + [info] + list[k..]];
    }

    /** Takes an empty page off the list of its bucket. */
    method Leave(b: nat, info: PgInfo, ghost k: nat)
      requires Queued(buckets, lists, objs) && b < SHIFT && k < |lists[b]| && lists[b][k] == info
      requires Separate(lists, b)
      modifies this`buckets, this`lists, objs`next
      ensures Queued(buckets, lists, objs) && lists == old(lists)[b := old(lists)[b][..k] + old(lists)[b][k + 1..]]
    {
      ghost var list := lists[b];
      OthersIn(lists, b);
      var head := RemoveInfo(buckets[b], info, list, k);
      buckets := buckets[b := head];
      lists := lists[b := list[..k] + list[k + 1..]];
    }

    /** What `free_bytes` does to the bitmap and to the lists before it looks at an empty page. */
    method GiveChunk(p: nat, info: PgInfo, i: nat) returns (was: bool)
      requires Parts() && SHIFT <= p && InfoOf(table, infos, p) == info && i in ChunkPage.Chunks(info.bucket)
      requires i in table[p].live ==> Handed(table, ChunkAddr(p, table[p].bucket, i))
      modifies this`buckets, this`lists, this`table, objs
      ensures Parts() && InfoOf(table, infos, p) == info && was == (i in old(table[p].live)) && Homes(table) == Homes(old(table))
      ensures if was then table == Marked(old(table), p, old(table[p].live) - {i}) && Gives(old(table), table, ChunkAddr(p, old(table[p].bucket), i))
              else table == old(table)
      ensures was ==> (info.free == info.total <==> table[p].live == {})
      ensures was && info.free == 1 ==> info.free != info.total
    {
      hide Placed, Mirrors, Listed, Queued, ChunkPage.Chunks, Handed, Rejoined, Separate, Extends;
      ghost var live := table[p].live;
      ExtendsStep(table, p, table[p].(live := live - {i}));
      InObjs(p, info);
      was := PutBit(p, info, i);
      assert !was ==> live - {i} == live && Marked(table, p, live) == table;
      if was {
        GivenBack(table, p, i);
        var b := if info.size != 0 then info.shift else 0;
        assert b == info.bucket;
        WhereListed(p, info);
        ghost var before := lists;
        if info.free == 1 {
          Rejoin(b, info);
        } else {
          RejoinedSelf(lists, objs, b, info);
        }
        NotFull(info.bucket, live, i);
        ListedGiven(table, infos, before, lists, objs, p, b, info, live - {i});
        table := Marked(table, p, live - {i});
      }
    }

    lemma InObjs(p: nat, info: PgInfo)
      requires Mirrors(table, infos, objs) && InfoOf(table, infos, p) == info
      ensures info in objs && info.page == p && info.bucket == table[p].bucket && IsBucket(info.bucket)
      ensures info.shift == ShiftOf(info.bucket) && info.size == SizeOf(info.bucket)
    {
      hide PgInfo.Good, PgInfo.Live;
      assert infos[table[p].at] == info;
      info.FullOrEmpty();
    }

    lemma WhereListed(p: nat, info: PgInfo)
      requires Placed(table) && Listed(table, infos, lists, objs) && Queued(buckets, lists, objs) && InfoOf(table, infos, p) == info && info.page == p && info in objs
      ensures |lists| == SHIFT && table[p].bucket < SHIFT && Separate(lists, table[p].bucket)
      ensures table[p].live == ChunkPage.Chunks(table[p].bucket) ==> forall c {:trigger lists[c]} :: 0 <= c < SHIFT ==> info !in lists[c]
      ensures table[p].live != ChunkPage.Chunks(table[p].bucket) ==> info in lists[table[p].bucket]
    {
      hide ChunkPage.Chunks, Housed, OnBucket, Separate;
      Known(table, p, 0);
      ListsSeparate(table, infos, lists, buckets, objs, table[p].bucket);
      hide Placed;
      forall c {:trigger lists[c]} | 0 <= c < SHIFT
        ensures info in lists[c] <==> HasRoom(table, infos, info, c)
      {
      }
    }

    /** "Find & remove this page in the queue": the page of `info`, which is at `at`, is no
        page of chunks any more. */
    method ReleasePage(p: nat, info: PgInfo, at: nat)
      requires Parts() && InfoOf(table, infos, p) == info && table[p].live == {} && table[p].at == at
      modifies this`buckets, this`lists, this`table, this`infos, objs`next
      ensures Parts() && table == old(table) - {p}
    {
      hide Placed, ChunkPage.Chunks, PgInfo.Good, PgInfo.Live, OnBucket, Housed, Separate, SizeOf, ShiftOf, IsBucket;
      InObjs(p, info);
      SomeChunk(info.bucket);
      WhereListed(p, info);
      MirrorsRemoved(table, infos, objs, p);
      PageRemoved(table, p);
      var b := if info.size != 0 then info.shift else 0;
      assert b == info.bucket by { BucketOfSlot(b, info.bucket); }
      ghost var k: nat :| k < |lists[b]| && lists[b][k] == info;
      NoRepeats(buckets[b], lists[b]);
      ListedRemoved(table, infos, lists, objs, p, b, k);
      hide Listed, Mirrors, Queued;
      Leave(b, info, k);
      infos := infos - {at};
      table := table - {p};
    }

    /** `ifree`.  The pointer is taken for Seen(a), which is a itself unless its page has no
        directory page.  A chunk, or a block of pages, that was handed out is taken back;
        nothing else changes for a caller.  All others are refused, except for those that
        Sane leaves out. */
    method IFree(a: nat) returns (outcome: FreeOutcome)
      requires Valid() && Sane(a)
      modifies this`buckets, this`lists, this`table, this`infos, objs, pages`used, pages`guarded, pages`blocks
      modifies pages.dir`lastDir, pages.dir`prevDir, pages.dir`abs, pages.dir.Nodes(), pages.list`abs, pages.list.Nodes()
      ensures Valid() && Shrunk()
      ensures outcome == (if IsLive(old(table), old(Seen(a))) then ChunkFreed else if old(InUse(Seen(a))) then PagesFreed else Refused)
      ensures outcome == ChunkFreed ==> Gives(old(table), table, old(Seen(a))) && PageBlocks() == old(PageBlocks())
      ensures outcome == PagesFreed ==> old(Seen(a)) == a && table == old(table) && PageBlocks() == old(PageBlocks()) - {PageOf(a)}
      ensures outcome == Refused ==> table == old(table) && PageBlocks() == old(PageBlocks())
      ensures Busy(old(table)) ==> Busy(table)
      decreases RankOf(table, Seen(a)), 2
    {
      hide Busy, Parts, Pages.Valid, IsLive, Handed, IntoHeader, Seen, Sane, PageOf, ReadAt, Infos, AtInfo, Heads, SlotRead;
      WhatIsRead(a);
      ghost var x := Seen(a);
      var result := pages.FreePointer(PageOf(a), a % PAGE == 0, Heads());
      if result.ChunkPage? {
        outcome := FreeBytes(x, a % PAGE, result.id);
      } else if result.Freed? {
        outcome := PagesFreed;
      } else {
        outcome := Refused;
      }
    }

    /** `free_bytes`, of the address with this offset in the page whose `struct pginfo` is
        at `at`. */
    method FreeBytes(ghost a: nat, offset: nat, at: nat) returns (outcome: FreeOutcome)
      requires Valid() && !IntoHeader(a) && !AtInfo(a)
      requires PageOf(a) in table && table[PageOf(a)].at == at && offset == a % PAGE
      modifies this`buckets, this`lists, this`table, this`infos, objs, pages`used, pages`guarded, pages`blocks
      modifies pages.dir`lastDir, pages.dir`prevDir, pages.dir`abs, pages.dir.Nodes(), pages.list`abs, pages.list.Nodes()
      ensures Valid() && Shrunk()
      ensures outcome == if IsLive(old(table), a) then ChunkFreed else Refused
      ensures outcome == ChunkFreed ==> Gives(old(table), table, a)
      ensures outcome == Refused ==> table == old(table)
      ensures PageBlocks() == old(PageBlocks())
      ensures Busy(old(table)) ==> Busy(table)
      decreases RankOf(table, a), 1
    {
      hide Busy, BusyBut, Parts, Pages.Valid, IsLive, Handed, Infos, Homes, PageBlocks, IntoHeader, PageOf, Extends;
      ghost var p := PageOf(a);
      var was, empty := TakeBack(a, offset, at);
      outcome := if was then ChunkFreed else Refused;
      BusyUnless(table, PageOf(a));
      if empty {
        ghost var mid := table;
        EmptyPage(infos[at].page, infos[at], at);
        ExtendsOn(table, mid, old(table));
      }
    }

    /** The part of `free_bytes` that deals with the chunk.  `empty` says that its page has
        to go as well. */
    method TakeBack(ghost a: nat, offset: nat, at: nat) returns (was: bool, empty: bool)
      requires Valid() && !IntoHeader(a) && !AtInfo(a)
      requires PageOf(a) in table && table[PageOf(a)].at == at && offset == a % PAGE
      modifies this`buckets, this`lists, this`table, objs
      ensures Valid() && was == IsLive(old(table), a) && infos == old(infos) && PageBlocks() == old(PageBlocks())
      ensures if was then Gives(old(table), table, a) else table == old(table)
      ensures var p := PageOf(a); p in table && table[p].at == at && table[p].bucket == old(table[p].bucket)
      ensures Busy(old(table)) ==> BusyBut(table, PageOf(a))
      ensures was && !empty ==> table[PageOf(a)].live != {}
      ensures at in infos && infos[at].page == PageOf(a) && (empty ==> was && table[PageOf(a)].live == {} && InfoOf(table, infos, PageOf(a)) == infos[at])
    {
      hide Busy, BusyBut, Parts, Infos, Homes, Handed, ChunkPage.Chunks, Directory.Valid, List.Valid, Anchored, Pages.Agree, Total, Gives, InPage, Rank, PageAddr;
      ghost var p := PageOf(a);
      InfoAtHome(p);
      StartOf(a);
      BusyMarked(table, p, table[p].live - {ChunkAt(table[p].bucket, a % PAGE)});
      var info := infos[at];
      if LowBits(offset, info.shift) != 0 {
        return false, false;  // "modified (chunk-) pointer"
      }
      was := GiveChunk(info.page, info, Shr(offset, info.shift));
      empty := was && !(info.free == 1) && info.free == info.total;
      SameKeys(old(table), table);
    }

    lemma StartOf(a: nat)
      requires Parts() && PageOf(a) in table
      ensures var p := PageOf(a); var b := table[p].bucket;
              Aligned(b, a % PAGE) ==> ChunkAddr(p, b, ChunkAt(b, a % PAGE)) == a && (!IntoHeader(a) ==> ChunkAt(b, a % PAGE) in ChunkPage.Chunks(b))
    {
      AddrIsChunk(table, a);
      Known(table, PageOf(a), 0);
      hide Placed, Positions, Stolen, Shr, PageOf;
      if Aligned(table[PageOf(a)].bucket, a % PAGE) {
        AddrBack(a, table[PageOf(a)].bucket);
      }
    }

    /** "Free the page & the info structure if need be". */
    method EmptyPage(p: nat, info: PgInfo, at: nat)
      requires Valid() && InfoOf(table, infos, p) == info && table[p].live == {} && table[p].at == at
      modifies this`buckets, this`lists, this`table, this`infos, objs, pages`used, pages`guarded, pages`blocks
      modifies pages.dir`lastDir, pages.dir`prevDir, pages.dir`abs, pages.dir.Nodes(), pages.list`abs, pages.list.Nodes()
      ensures Valid() && Shrunk()
      ensures Extends(table, old(table)) && forall x :: Handed(table, x) <==> Handed(old(table), x)
      ensures PageBlocks() == old(PageBlocks())
      ensures BusyBut(old(table), p) ==> Busy(table)
      decreases Rank(table[p].bucket) + 1, 0
    {
      hide Busy, BusyBut, Parts, Pages.Valid, IsLive, Handed, Infos, Homes, PageBlocks, InPage, PageOf, PageAddr, Rank, Aligned, ChunkAt, ChunkPage.Chunks, Extends;
      AtVacant(p);
      BusyRemoved(table, p);
      ExtendsStep(table, p, table[p]);
      ghost var mid := table - {p};
      Detach(p, info, at);
      InTable(p);
      if PageAddr(p) != at {
        HandedIsSane(at);
        var _ := IFree(at);
        ExtendsOn(table, mid, old(table));
        InTable(p);
      }
      PageOfAddr(p);
      LiveInTable(table, PageAddr(p));
      PutAside(old(PageBlocks()), p, 1);
      HandedIsSane(PageAddr(p));
      var _ := IFree(PageAddr(p));
    }

    lemma AtVacant(p: nat)
      requires Parts() && p in table && table[p].live == {}
      ensures SHIFT <= p && Vacant(table, table - {p}, p)
    {
      hide Placed, Mirrors, Listed, Queued;
      Known(table, p, 0);
      Vacated(table, p);
    }

    lemma InTable(p: nat)
      requires Valid() && p in PageBlocks()
      ensures p !in table && p in pages.blocks.live && SHIFT <= p
    {
      hide Parts, Pages.Valid;
      Kinds(p);
    }

    /** The page becomes a plain block of one page. */
    method Detach(p: nat, info: PgInfo, at: nat)
      requires Valid() && InfoOf(table, infos, p) == info && table[p].live == {} && table[p].at == at
      modifies this`buckets, this`lists, this`table, this`infos, objs`next
      modifies pages.dir`lastDir, pages.dir`prevDir, pages.dir`abs, pages.dir.Nodes()`base
      ensures Valid() && objs == old(objs) && pages.dir.Nodes() == old(pages.dir.Nodes()) && table == old(table) - {p}
      ensures PageBlocks() == old(PageBlocks())[p := 1] && p !in old(PageBlocks())
    {
      hide Parts, Infos, Homes, Directory.Valid, List.Valid, Anchored, Pages.Agree, Total;
      TablePages();
      HomesRemoved(pages.dir.abs.tags, table, p);
      ReleasePage(p, info, at);
      pages.Retag(p, First);
    }

    lemma InfoAtHome(p: nat)
      requires Parts() && p in table
      ensures SHIFT <= p && table[p].at in infos && InfoOf(table, infos, p) == infos[table[p].at]
      ensures infos[table[p].at].shift == ShiftOf(table[p].bucket) && infos[table[p].at].bucket == table[p].bucket
      ensures infos[table[p].at].page == p
    {
      hide Listed, Queued;
      Known(table, p, 0);
      hide Placed;
      InObjs(p, infos[table[p].at]);
    }

    lemma Kinds(p: nat)
      requires Valid()
      ensures var tag := TagOf(pages.dir.abs.tags, p);
              if p in table then tag == Tag.Info(table[p].at) && SHIFT <= p
              else if p in PageBlocks() then tag == First && SHIFT <= p
              else !tag.Info?
      ensures TagOf(pages.dir.abs.tags, p) != NotMine ==> HasDir(pages.dir.abs.dirs, PiIdx(p))
    {
      hide Parts, Pages.Valid;
      pages.TagKinds(p);
      TablePages();
      assert p in table <==> p in Homes(table);
    }

    // ----- what `ifree` lets through

    /** What callers hold: chunks, and blocks of pages. */
    ghost predicate HandedOut(a: nat)
      reads this`table, pages`blocks
    {
      Out(table, PageBlocks(), a)
    }

    /** The start of a position that the `struct pginfo` in the page itself covers. */
    ghost predicate IntoHeader(a: nat)
      reads this`table
    {
      var p := PageOf(a);
      p in table && Aligned(table[p].bucket, a % PAGE) && ChunkAt(table[p].bucket, a % PAGE) < Stolen(table[p].bucket)
    }

    /** A chunk that the allocator itself uses, for a `struct pginfo`. */
    ghost predicate AtInfo(a: nat)
      reads this`table
    {
      IsLive(table, a) && !Handed(table, a)
    }

    /** The start of a guard page, which is tagged FIRST. */
    ghost predicate AtGuard(a: nat)
      reads pages`blocks
    {
      IsGuard(pages.blocks, PageOf(a)) && a % PAGE == 0
    }

    ghost predicate LooksHandedOut(a: nat)
      reads this`table, pages`blocks
    {
      HandedOut(a) || IntoHeader(a) || AtInfo(a) || AtGuard(a)
    }

    /** The page that `ifree` takes p for: another page if p has no directory page, and the
        first page of a bucket if the slot that is read belongs to a bucket. */
    ghost function PageSeen(p: nat): (q: nat)
      requires SHIFT <= p
      reads this`buckets, pages.dir`abs
      ensures SHIFT <= q
    {
      var r := ReadAt(pages.dir.abs.dirs, p);
      if SHIFT <= r then r
      else if r < |buckets| && buckets[r] != null && SHIFT <= buckets[r].page then buckets[r].page
      else p
    }

    /** The address that `ifree` takes `a` for. */
    ghost function Seen(a: nat): nat
      reads this`buckets, pages.dir`abs
    {
      PageAddr(PageSeen(PageOf(a))) + a % PAGE
    }

    /** `a` was not handed out, but looks like it, or is taken for another address that does. */
    ghost predicate LookAlike(a: nat)
      reads this`table, this`buckets, pages`blocks, pages.dir`abs
    {
      IntoHeader(a) || AtInfo(a) || AtGuard(a) || (Seen(a) != a && LooksHandedOut(Seen(a)))
    }

    /** The address that `a` is taken for is not in a header, at a `struct pginfo` or a guard
        page, and if it is the start of a block, it is `a` itself. */
    ghost predicate Sane(a: nat)
      reads this`table, this`buckets, pages`blocks, pages.dir`abs
    {
      var x := Seen(a);
      !IntoHeader(x) && !AtInfo(x) && !AtGuard(x) && (PageOf(x) in PageBlocks() && x % PAGE == 0 ==> x == a)
    }

    /** What the first slots of the directory hold: the first page of each bucket. */
    function Heads(): (heads: seq<Tag>)
      reads this`buckets
      ensures |heads| == SHIFT
      ensures forall b {:trigger heads[b]} :: 0 <= b < SHIFT ==> heads[b] == if b < |buckets| && buckets[b] != null then Tag.Info(buckets[b].at) else NotMine
    {
      var heads := buckets;
      seq(SHIFT, b requires 0 <= b => if b < |heads| && heads[b] != null then Tag.Info(heads[b].at) else NotMine)
    }

    /** The slot of index r. */
    ghost function SlotOf(r: nat): Tag
      reads this`buckets, pages.dir`abs
    {
      SlotRead(pages.dir.abs.tags, Heads(), r)
    }

    /** The `struct pginfo` that the slot of index r points at. */
    ghost function InfoRead(r: nat): PgInfo?
      reads this`buckets, this`infos, pages.dir`abs
    {
      var tag := SlotOf(r);
      if tag.Info? && tag.id in infos then infos[tag.id] else null
    }

    /** The tests of `ifree`, `free_pages` and `free_bytes` let the pointer through. */
    ghost predicate Passes(a: nat)
      reads this, objs, pages.dir`abs
    {
      var r := ReadAt(pages.dir.abs.dirs, PageOf(a));
      var info := InfoRead(r);
      if info != null then info in objs && LowBits(a % PAGE, info.shift) == 0 && !Bit(info.bits, Shr(a % PAGE, info.shift))
      else SlotOf(r) == First && a % PAGE == 0
    }

    /** The tests of `free_bytes`, for the page of chunks q. */
    lemma ChunkTests(q: nat, offset: nat)
      requires Parts() && q in table && offset < PAGE
      ensures SHIFT <= q && table[q].at in infos && infos[table[q].at] in objs
      ensures var o := infos[table[q].at]; var x := PageAddr(q) + offset;
              (LowBits(offset, o.shift) == 0 && !Bit(o.bits, Shr(offset, o.shift))) <==> IsLive(table, x) || IntoHeader(x)
    {
      hide Listed, Queued;
      Known(table, q, 0);
      hide Placed;
      var o := infos[table[q].at];
      assert Mirror(o, q, table[q]);
      InObjs(q, o);
      hide Mirrors;
      PageAndOffset(q, offset);
      OffsetOf(o.bucket, offset);
      hide Positions, Stolen, Shr, LowBits, PageOf, PageAddr;
      var i := Shr(offset, o.shift);
      assert i in o.Live() <==> Stolen(o.bucket) <= i < Positions(o.bucket) && !Bit(o.bits, i);
    }

    lemma PageAndOffset(q: nat, offset: nat)
      requires SHIFT <= q && offset < PAGE
      ensures PageOf(PageAddr(q) + offset) == q && (PageAddr(q) + offset) % PAGE == offset
    {
    }

    /** The tests, for the slot of page q itself. */
    lemma OwnTests(q: nat, offset: nat)
      requires Valid() && SHIFT <= q && offset < PAGE
      ensures PageOf(PageAddr(q) + offset) == q && (PageAddr(q) + offset) % PAGE == offset
      ensures var x := PageAddr(q) + offset; var info := InfoRead(q);
              (LooksHandedOut(x) <==>
                if info != null then info in objs && LowBits(offset, info.shift) == 0 && !Bit(info.bits, Shr(offset, info.shift))
                else TagOf(pages.dir.abs.tags, q) == First && offset == 0)
      ensures q in table ==> InfoRead(q) == infos[table[q].at]
      ensures InfoRead(q) != null ==> q in table
    {
      hide Pages.Valid, LowBits, Shr, Bit, PageAddr, Aligned, ChunkAt, Stolen;
      PageAndOffset(q, offset);
      HasBuckets();
      Kinds(q);
      TagsOfBlocks(q);
      if q in table {
        ChunkTests(q, offset);
        hide Parts;
      }
    }
  
    /** FIRST is the tag of blocks of pages and of guard pages. */
    lemma TagsOfBlocks(q: nat)
      requires Valid()
      ensures TagOf(pages.dir.abs.tags, q) == First <==> q in PageBlocks() || IsGuard(pages.blocks, q)
      ensures q in table || q in PageBlocks() ==> !IsGuard(pages.blocks, q)
    {
      hide Parts, Directory.Valid, List.Valid, Anchored, Partition, PageAllocator.Counted, Total;
      FirstTags(pages.dir.abs.tags, pages.list.Free(), pages.blocks, pages.g, q);
      assert q in Homes(table) <==> q in table;
      TablePages();
    }

    /** A page without a directory page is nothing to the allocator. */
    lemma NoDirectoryPage(p: nat, offset: nat)
      requires Valid() && SHIFT <= p && offset < PAGE
      ensures var x := PageAddr(p) + offset; !HasDir(pages.dir.abs.dirs, PiIdx(p)) ==> !LooksHandedOut(x) && !IsLive(table, x)
      ensures HasDir(pages.dir.abs.dirs, PiIdx(p)) <==> ReadAt(pages.dir.abs.dirs, p) == p
      ensures TagOf(pages.dir.abs.tags, p) != NotMine ==> HasDir(pages.dir.abs.dirs, PiIdx(p))
      ensures forall r: nat :: r < SHIFT ==> TagOf(pages.dir.abs.tags, r) == NotMine
    {
      hide Parts, List.Valid, Anchored, Pages.Agree, Total, PiIdx, HasDir, ReadAt, PageAddr;
      PageAndOffset(p, offset);
      ReadsOwn(pages.dir.abs.dirs, p);
      hide Packed, Stores, Chained;
      Kinds(p);
      TagsOfBlocks(p);
    }

    /** A bucket's slot names its first page, and the slots of pages their tags. */
    lemma SlotKinds(r: nat)
      requires Valid()
      ensures SHIFT <= r ==> SlotOf(r) == TagOf(pages.dir.abs.tags, r)
      ensures |buckets| == SHIFT
      ensures r < SHIFT && buckets[r] == null ==> SlotOf(r) == NotMine && InfoRead(r) == null
      ensures r < SHIFT && buckets[r] != null ==>
                var q := buckets[r].page; q in table && SHIFT <= q && SlotOf(r) == Tag.Info(table[q].at) && InfoRead(r) == infos[table[q].at] && InfoRead(r) != null
    {
      hide Pages.Valid, Infos, Homes, Placed;
      HasBuckets();
      if r < SHIFT && buckets[r] != null {
        Front(r);
        hide Queued, Listed, OnBucket;
        assert Mirror(infos[table[buckets[r].page].at], buckets[r].page, table[buckets[r].page]);
      }
    }

    /** A page that has been seen instead of p. */
    lemma OtherPage(a: nat)
      requires Valid()
      ensures var p := PageOf(a); var r := ReadAt(pages.dir.abs.dirs, p); var q := PageSeen(p);
              && (q == p ==> Seen(a) == a) && (q != p ==> r != p && Seen(a) != a)
              && PageOf(Seen(a)) == q && Seen(a) % PAGE == a % PAGE && Seen(a) == PageAddr(q) + a % PAGE
              && (r < SHIFT && buckets[r] != null ==> q == buckets[r].page && q in table && SlotOf(r) == Tag.Info(table[q].at) && InfoRead(r) == infos[table[q].at] && InfoRead(r) != null)
              && (r < SHIFT && buckets[r] == null ==> q == p && SlotOf(r) == NotMine && InfoRead(r) == null)
              && (SHIFT <= r ==> q == r && SlotOf(r) == TagOf(pages.dir.abs.tags, r)) && PageAddr(p) + a % PAGE == a
    {
      hide Parts, Pages.Valid, Infos, Homes, ReadAt, PiIdx, InfoRead, SlotOf;
      var p := PageOf(a);
      SlotKinds(ReadAt(pages.dir.abs.dirs, p));
      PageAndOffset(PageSeen(p), a % PAGE);
    }

    /** The tests let a pointer through exactly if it was handed out or is a look-alike. */
    lemma OnlyLookAlikes(a: nat)
      requires Valid()
      ensures Passes(a) <==> HandedOut(a) || LookAlike(a)
    {
      hide Parts, Pages.Valid, LowBits, Shr, Bit, ReadAt, PiIdx, HasDir, IntoHeader, AtInfo, AtGuard, HandedOut, InfoRead, SlotOf, PageAddr, PageOf, Seen;
      var p := PageOf(a);
      NoDirectoryPage(p, a % PAGE);
      OtherPage(a);
      OwnTests(PageSeen(p), a % PAGE);
      SlotKinds(PageSeen(p));
    }

    /** Of the look-alikes, Sane leaves out all but those that are taken for a chunk that was
        handed out: that chunk is freed, and the allocator's state stays good. */
    lemma SaneExactly(a: nat)
      requires Valid()
      ensures Sane(a) <==> !LookAlike(a) || (Seen(a) != a && Handed(table, Seen(a)))
    {
      hide Parts, Pages.Valid, ReadAt, PiIdx, HasDir, PageAddr, PageOf, Aligned, ChunkAt, Stolen, IsLive, IsGuard, PageSeen;
      var p := PageOf(a);
      NoDirectoryPage(p, a % PAGE);
      OtherPage(a);
      var x := Seen(a);
      LiveAboveHeader(x);
      LiveInTable(table, x);
      TagsOfBlocks(PageOf(x));
      InTableOrNot(PageOf(x));
    }

    /** Look-alikes exist: the page after any block, if there are guard pages. */
    lemma GuardsLookAlike(s: nat)
      requires Valid() && pages.g == 1 && s in pages.blocks.live && SHIFT <= s
      ensures var a := PageAddr(s + pages.blocks.live[s]); Passes(a) && !HandedOut(a)
    {
      hide Parts, Pages.Valid, IsLive, Passes, PageAddr, PageOf, IntoHeader, AtInfo, Seen;
      var i := s + pages.blocks.live[s];
      GuardOf(s);
      PageOfAddr(i);
      OnlyLookAlikes(PageAddr(i));
      TagsOfBlocks(i);
      LiveInTable(table, PageAddr(i));
    }

    lemma GuardOf(s: nat)
      requires Valid() && pages.g == 1 && s in pages.blocks.live
      ensures IsGuard(pages.blocks, s + pages.blocks.live[s])
    {
      hide Parts, Directory.Valid, List.Valid, Anchored, TagsAgree, Partition, PageAllocator.Counted, Total;
      assert Owns(pages.blocks, 1, s);
    }

    /** And the `struct pginfo` of every page of chunks. */
    lemma InfosLookAlike(p: nat)
      requires Valid() && p in table
      ensures Passes(table[p].at) && !HandedOut(table[p].at)
    {
      hide Pages.Valid, Mirrors, Listed, Queued, Passes, PageOf, Seen, Rank, InPage, Stolen, Positions, Aligned, ChunkAt;
      var at := table[p].at;
      assert Housed(table, p) && IsHome(table, p, at);
      OnlyLookAlikes(at);
      LiveInTable(table, at);
      if InPage(table[p].bucket) {
        PageOfAddr(p);
        HeaderStart(table[p].bucket);
      }
      InTableOrNot(PageOf(at));
    }

    /** What a caller holds can be freed, at any time. */
    lemma HandedIsSane(a: nat)
      requires Valid() && HandedOut(a)
      ensures Sane(a) && Seen(a) == a
    {
      hide Parts, Pages.Valid, ReadAt, PiIdx, HasDir, PageAddr, PageOf, Aligned, ChunkAt, Stolen;
      var p := PageOf(a);
      NoDirectoryPage(p, a % PAGE);
      OtherPage(a);
      TagsOfBlocks(p);
      LiveAboveHeader(a);
      LiveInTable(table, a);
      InTableOrNot(p);
    }

    lemma LiveAboveHeader(a: nat)
      requires Valid()
      ensures IsLive(table, a) ==> !IntoHeader(a)
    {
      hide Pages.Valid, Mirrors, Listed, Queued, Aligned, ChunkAt, Stolen, Positions, PageOf;
      if PageOf(a) in table {
        Known(table, PageOf(a), 0);
      }
    }

    lemma InTableOrNot(p: nat)
      ensures p in table ==> p !in PageBlocks()
    {
    }

    /** What `ifree` of a sane pointer finds. */
    lemma WhatIsRead(a: nat)
      requires Valid() && Sane(a)
      ensures var tag := SlotRead(pages.dir.abs.tags, Heads(), ReadAt(pages.dir.abs.dirs, PageOf(a))); var x := Seen(a);
              && (tag == First && a % PAGE == 0 ==> PageOf(a) in PageBlocks() && x == a)
              && (tag.Info? ==> PageOf(x) in table && table[PageOf(x)].at == tag.id && x % PAGE == a % PAGE && !IntoHeader(x) && !AtInfo(x))
              && (!tag.Info? ==> !IsLive(table, x))
              && (tag != First ==> PageOf(x) !in PageBlocks()) && x % PAGE == a % PAGE
    {
      hide Parts, Pages.Valid, ReadAt, PiIdx, HasDir, PageAddr, PageOf, IsLive, Handed, IntoHeader, InfoRead, Heads, SlotRead, PageSeen, Seen;
      var p := PageOf(a);
      var r := ReadAt(pages.dir.abs.dirs, p);
      NoDirectoryPage(p, a % PAGE);
      OtherPage(a);
      LiveInTable(table, Seen(a));
      Kinds(PageSeen(p));
      TagsOfBlocks(PageSeen(p));
    }

    twostate predicate Shrunk()
      reads this`objs, pages.dir`abs, pages.list`abs
    {
      && objs == old(objs) && pages.dir.Nodes() <= old(pages.dir.Nodes())
      && forall x {:trigger x in pages.list.Nodes()} :: x in pages.list.Nodes() ==> x in old(pages.list.Nodes()) || fresh(x)
    }

    /** `imalloc`.  What it returns is new, and `ifree` will take it back; a size that would
        overflow when it is rounded up to pages is refused, with NULL. */
    method IMalloc(size: nat, env: seq<Env>) returns (ok: bool, a: nat)
      requires Valid() && RankFor(size) < |env| && EnvFits(env, pages.dir.abs.owned, PagesFor(size) + pages.g)
      modifies this, pages`used, pages`guarded, pages`blocks, pages.dir, pages.dir.Nodes(), pages.list`abs, pages.list.Nodes(), objs
      ensures Valid() && Grown() && (Busy(old(table)) ==> Busy(table)) && (ok <==> size <= SIZE_MAX - PAGE)
      ensures ok ==> HandedOut(a) && !old(HandedOut(a))
      ensures if !ok then table == old(table) && PageBlocks() == old(PageBlocks())
              else if size <= MAXSIZE then Serves(old(table), table, a) && ChunkPage.Fits(size, table[PageOf(a)].bucket) && PageBlocks() == old(PageBlocks())
              else table == old(table) && a % PAGE == 0 && PageOf(a) !in old(PageBlocks()) && PageBlocks() == old(PageBlocks())[PageOf(a) := PagesFor(size)]
    {
      hide Busy, Parts, Pages.Valid, IsLive, Handed, EnvFits, Serves, ChunkPage.Fits;
      if size > SIZE_MAX - PAGE {
        return false, 0;
      }
      ok := true;
      if size <= MAXSIZE {
        a := MallocBytes(size, env);
        HandedNow(old(table), table, a);
      } else {
        a := MallocPages(size, env);
        InTable(PageOf(a));
        LiveInTable(table, a);
      }
    }

    /** `malloc_pages` as `imalloc` calls it. */
    method MallocPages(size: nat, env: seq<Env>) returns (a: nat)
      requires Valid() && MAXSIZE < size && 0 < |env| && EnvFits(env, pages.dir.abs.owned, PagesFor(size) + pages.g)
      modifies pages`used, pages`guarded, pages`blocks, pages.dir, pages.dir.Nodes(), pages.list`abs, pages.list.Nodes()
      ensures Valid() && Grown()
      ensures a % PAGE == 0 && PageOf(a) !in old(PageBlocks()) && PageBlocks() == old(PageBlocks())[PageOf(a) := PagesFor(size)]
    {
      hide Parts, Pages.Valid, Infos, Directory.Valid, EnvFits, Chosen, WithoutBlock, WithBlock, Range, List.Free, Homes;
      FirstEnv(env, pages.dir.abs.owned, PagesFor(size) + pages.g);
      TablePages();
      ghost var live := pages.blocks.live;
      var p := pages.MallocPages(PagesFor(size), env[0].mmapAt);
      AddedBlock(live, table.Keys, p, PagesFor(size));
      a := PageAddr(p);
      PageOfAddr(p);
    }

    // ----- what is in use

    /** A chunk, for a caller or for a `struct pginfo`, or a block of pages. */
    ghost predicate InUse(a: nat)
      reads this`table, pages`blocks
    {
      IsLive(table, a) || (PageOf(a) in PageBlocks() && a % PAGE == 0)
    }

    /** How many bytes are there. */
    ghost function SizeAt(a: nat): nat
      requires InUse(a)
      reads this`table, pages`blocks
    {
      Bytes(table, PageBlocks(), a)
    }

    /** Nothing that is in use overlaps anything else that is. */
    lemma Apart(a: nat, x: nat)
      requires Valid() && InUse(a) && InUse(x) && a < x
      ensures a + SizeAt(a) <= x
    {
      hide Parts, Pages.Valid, Pow2, ShiftOf, IsLive;
      LiveInTable(table, a);
      LiveInTable(table, x);
      InTableOrNot(PageOf(a));
      InTableOrNot(PageOf(x));
      if PageOf(a) in table {
        if PageOf(x) in table {
          TwoChunks(a, x);
        } else {
          ChunkInPage(a);
        }
      } else {
        BeyondBlock(PageOf(a), PageOf(x));
      }
    }

    lemma TwoChunks(a: nat, x: nat)
      requires Valid() && IsLive(table, a) && IsLive(table, x) && a < x
      ensures a + Pow2(ShiftOf(table[PageOf(a)].bucket)) <= x
    {
      hide Pages.Valid, Mirrors, Listed, Queued, Placed, Pow2, ShiftOf;
      ChunksApart(table, a, x);
    }

    lemma ChunkInPage(a: nat)
      requires Valid() && IsLive(table, a)
      ensures a % PAGE + Pow2(ShiftOf(table[PageOf(a)].bucket)) <= PAGE
    {
      hide Pages.Valid, Mirrors, Listed, Queued, Pow2, ShiftOf, Positions, Stolen, Shr;
      var b := table[PageOf(a)].bucket;
      Known(table, PageOf(a), 0);
      OffsetOf(b, a % PAGE);
      ChunkOffset(b, ChunkAt(b, a % PAGE));
    }

    /** A page of chunks or the start of a block, behind the start of block p, is behind all of
        that block. */
    lemma BeyondBlock(p: nat, q: nat)
      requires Valid() && p in PageBlocks() && (q in table || q in PageBlocks()) && p <= q
      ensures q == p || p + PageBlocks()[p] <= q
    {
      hide Parts, Directory.Valid, List.Valid, Anchored, Partition, TagsAgree, PageAllocator.Counted, Total, WellOwned;
      TablePages();
      if q != p {
        BlocksDisjoint(pages.blocks, pages.g, p, q);
        BlockPages(pages.blocks, pages.g, q);
        assert q in Range(q, q + pages.blocks.live[q] + pages.g);
        assert q !in Range(p, p + pages.blocks.live[p] + pages.g);
      }
    }

    lemma ApartKeys()
      requires Valid()
      ensures table.Keys !! PageBlocks().Keys
    {
      hide Parts, Pages.Valid;
    }

    lemma ServedFits(t: Table, size: nat, a: nat)
      requires Valid() && Serves(t, table, a) && ChunkPage.Fits(size, table[PageOf(a)].bucket)
      ensures PageOf(a) in table && size <= Pow2(ShiftOf(table[PageOf(a)].bucket))
    {
      hide Mirrors, Listed, Queued, Pages.Valid, ChunkPage.Fits, Pow2, ShiftOf;
      Known(table, PageOf(a), 0);
      ChunkFits(size, table[PageOf(a)].bucket);
    }

    /** What was allocated can be freed, and then a caller sees no difference. */
    method MallocFree(size: nat, env: seq<Env>) returns (ok: bool)
      requires Valid() && RankFor(size) < |env| && EnvFits(env, pages.dir.abs.owned, PagesFor(size) + pages.g)
      modifies this, pages`used, pages`guarded, pages`blocks, pages.dir, pages.dir.Nodes(), pages.list`abs, pages.list.Nodes(), objs
      ensures Valid() && PageBlocks() == old(PageBlocks())
      ensures (forall x :: Handed(table, x) <==> Handed(old(table), x)) && (Busy(old(table)) ==> Busy(table))
    {
      hide Busy, Own, Pages.Valid, IsLive, Handed, EnvFits, ChunkPage.Fits, Sane, PageBlocks;
      var a;
      ok, a := IMalloc(size, env);
      if !ok {
        return;
      }
      ghost var mid := table;
      HandedIsSane(a);
      LiveInTable(mid, a);
      if size > MAXSIZE {
        InTable(PageOf(a));
        PutAside(old(PageBlocks()), PageOf(a), PagesFor(size));
      }
      var outcome := IFree(a);
    }
  }

  lemma ChunkFits(size: nat, b: nat)
    requires IsBucket(b) && ChunkPage.Fits(size, b)
    ensures size <= Pow2(ShiftOf(b))
  {
    Pow2Grows(4, ShiftOf(b));
    assert Pow2(4) == 16;
  }

  lemma PagesFit(size: nat)
    requires MAXSIZE < size
    ensures size <= PagesFor(size) * PAGE
  {
  }

  /** A program that allocates and frees as it likes, and remembers what it holds.  Whatever
      it does, and wherever the system maps memory, the allocator hands out exactly what the
      program believes it holds. */
  class Session {
    const heap: Heap
    /** The size that was asked for, for each address that has not been freed since. */
    ghost var held: map<nat, nat>

    ghost predicate Valid()
      reads this, heap, heap.objs, heap.pages, heap.pages.dir, heap.pages.dir.abs.dirs
      reads heap.pages.list, heap.pages.list.head, heap.pages.list.abs.nodes, heap.pages.list.Nodes()
    {
      heap.Valid() && Records(heap.table, heap.PageBlocks(), held)
    }

    constructor (g: nat, cache: nat)
      requires g <= 1
      ensures Valid() && held == map[]
    {
      hide Heap.Parts, Infos, Homes, Directory.Valid, List.Valid, Anchored, Pages.Agree, Total, Records;
      heap := new Heap(g, cache);
      held := map[];
      new;
      RecordsNothing();
    }

    /** What the program holds never overlaps. */
    lemma Apart(a: nat, x: nat)
      requires Valid() && a in held && x in held && a < x
      ensures a + held[a] <= x
    {
      hide Heap.Valid, Bytes;
      assert Out(heap.table, heap.PageBlocks(), a) && Out(heap.table, heap.PageBlocks(), x);
      heap.Apart(a, x);
    }

    /** `malloc` */
    method Malloc(size: nat, env: seq<Env>) returns (ok: bool, a: nat)
      requires Valid() && RankFor(size) < |env| && EnvFits(env, heap.pages.dir.abs.owned, PagesFor(size) + heap.pages.g)
      modifies this, heap, heap.pages`used, heap.pages`guarded, heap.pages`blocks, heap.pages.dir, heap.pages.dir.Nodes()
      modifies heap.pages.list`abs, heap.pages.list.Nodes(), heap.objs
      ensures Valid() && (ok <==> size <= SIZE_MAX - PAGE)
      ensures ok ==> a !in old(held) && held == old(held)[a := size]
      ensures !ok ==> held == old(held)
    {
      hide Heap.Parts, Infos, Homes, Directory.Valid, List.Valid, Anchored, Pages.Agree, Total, Records, EnvFits, Serves, ChunkPage.Fits, Out;
      ghost var table, blocks := heap.table, heap.PageBlocks();
      heap.ApartKeys();
      ok, a := heap.IMalloc(size, env);
      heap.ApartKeys();
      if ok {
        if size <= MAXSIZE {
          heap.ServedFits(table, size, a);
          RecordsChunk(table, heap.table, blocks, held, a, size);
        } else {
          PagesFit(size);
          RecordsBlock(table, blocks, held, a, PagesFor(size), size);
        }
        held := held[a := size];
      }
    }

    /** What the program holds can be freed. */
    lemma HeldIsSane(a: nat)
      requires Valid()
      ensures a in held ==> heap.Sane(a) && heap.Seen(a) == a
      ensures heap.Sane(a) ==> (heap.Seen(a) in held <==> heap.InUse(heap.Seen(a)))
    {
      hide Heap.Valid, IsLive, Heap.IntoHeader, Heap.AtGuard, Heap.Seen, PageOf, Bytes;
      assert a in held <==> Out(heap.table, heap.PageBlocks(), a);
      assert heap.Seen(a) in held <==> Out(heap.table, heap.PageBlocks(), heap.Seen(a));
      if a in held {
        heap.HandedIsSane(a);
      }
    }

    /** `free`, of any address that the allocator survives.  What is freed is what the address is
        taken for: an address that is held is taken for itself. */
    method Free(a: nat) returns (outcome: FreeOutcome)
      requires Valid() && (a in held || heap.Sane(a))
      modifies this, heap`buckets, heap`lists, heap`table, heap`infos, heap.objs, heap.pages`used, heap.pages`guarded, heap.pages`blocks
      modifies heap.pages.dir`lastDir, heap.pages.dir`prevDir, heap.pages.dir`abs, heap.pages.dir.Nodes(), heap.pages.list`abs, heap.pages.list.Nodes()
      ensures Valid() && held == old(held) - {old(heap.Seen(a))} && (outcome == Refused <==> old(heap.Seen(a)) !in old(held))
      ensures a in old(held) ==> old(heap.Seen(a)) == a
    {
      hide Heap.Parts, Infos, Homes, Directory.Valid, List.Valid, Anchored, Pages.Agree, Total, Records, Gives, Out, IsLive, Handed, Heap.Sane, Heap.Seen;
      ghost var table, blocks, x := heap.table, heap.PageBlocks(), heap.Seen(a);
      heap.ApartKeys();
      HeldIsSane(a);
      outcome := heap.IFree(a);
      match outcome {
        case ChunkFreed => RecordsLess(table, heap.table, blocks, held, x);
        case PagesFreed => RecordsFewer(table, blocks, held, x);
        case Refused => assert held - {x} == held;
      }
      held := held - {x};
    }
  }
}
